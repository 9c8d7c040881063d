/** What structured programs mean, and that the fetch loop over their compiled code
    computes exactly that. */
module Simulation {
  import opened Words
  import opened Bus
  import opened Stacks
  import opened Threaded
  import opened Compiler

  /** An answer, an abort, the end of the process on a fault of the bus, or no answer
      for want of fuel. */
  datatype Run = Done(core: Core) | Aborted | Faulted | OutOfFuel

  ghost predicate Runnable(c: Core) {
    c.Valid() && !c.abort && c.mode == Runtime
  }

  /** The cells of s on top of the data stack, if there is room. */
  function Pushed(c: Core, s: seq<u32>): Run {
    if |c.ds| + |s| <= STACK_CELLS then Done(c.(ds := c.ds + s)) else Aborted
  }

  function WithoutTop(c: Core): (r: Core)
    requires |c.ds| > 0
    ensures Runnable(c) ==> Runnable(r)
  {
    c.(ds := c.ds[..|c.ds| - 1])
  }

  function Truth(c: Core): bool
    requires |c.ds| > 0
  {
    c.ds[|c.ds| - 1] != 0
  }

  /** A word, literal or string that stands at cell k. */
  function EvalAtom(d: Dialect, p: Prog, k: int, c: Core): (r: Run)
    requires Runnable(c) && TextsFit(p) && InSpi(k, Slots(p))
    ensures r.Done? ==> Runnable(r.core)
  {
    match p
    case Lit(v) => Pushed(c, [v])
    case Call(w) =>
      var q := CompiledAs(d, w);
      PrimMeaning(q, c);
      if Enabled(q, c) then Done(Effect(q, c)) else Aborted
    case Str(t) => Pushed(c, [Addr(k + 2), |t|])
    case _ => Done(c)
  }

  /** The meaning of the program that stands at cell k, with fuel turns for each
      loop: IF takes its branch on a true flag, a loop ends on a true flag. As
      written, a false flag at IF sends the ip to the offset itself, where no memory
      answers. */
  function Eval(d: Dialect, p: Prog, k: int, fuel: nat, c: Core): (r: Run)
    requires Runnable(c) && TextsFit(p) && InSpi(k, Slots(p))
    ensures r.Done? ==> Runnable(r.core)
    decreases fuel, p
  {
    match p
    case Seq(a, b) =>
      (match Eval(d, a, k, fuel, c)
       case Done(c1) => Eval(d, b, k + Slots(a), fuel, c1)
       case other => other)
    case IfThen(t) =>
      if c.ds == [] then Aborted
      else if Truth(c) then Eval(d, t, k + 2, fuel, WithoutTop(c))
      else if d == AsWritten then Faulted
      else Done(WithoutTop(c))
    case IfElse(t, e) =>
      if c.ds == [] then Aborted
      else if Truth(c) then Eval(d, t, k + 2, fuel, WithoutTop(c))
      else if d == AsWritten then Faulted
      else Eval(d, e, k + 4 + Slots(t), fuel, WithoutTop(c))
    case Loop(b) =>
      (match Eval(d, b, k, fuel, c)
       case Done(c1) => AfterBody(d, b, k, fuel, c1)
       case other => other)
    case _ => EvalAtom(d, p, k, c)
  }

  /** UNTIL, with the flag on top. */
  function AfterBody(d: Dialect, b: Prog, k: int, fuel: nat, c: Core): (r: Run)
    requires Runnable(c) && TextsFit(b) && InSpi(k, Slots(Loop(b)))
    ensures r.Done? ==> Runnable(r.core)
    decreases fuel, b
  {
    if c.ds == [] then Aborted
    else if Truth(c) then Done(WithoutTop(c))
    else if fuel == 0 then OutOfFuel
    else Eval(d, Loop(b), k, fuel - 1, WithoutTop(c))
  }

  /** More fuel does not change an answer. */
  lemma {:induction false} MoreFuel(d: Dialect, p: Prog, k: int, fuel: nat, more: nat, c: Core)
    requires Runnable(c) && TextsFit(p) && InSpi(k, Slots(p)) && fuel <= more
    requires Eval(d, p, k, fuel, c) != OutOfFuel
    ensures Eval(d, p, k, more, c) == Eval(d, p, k, fuel, c)
    decreases fuel, p
  {
    hide EvalAtom, Runnable;
    match p
    case Seq(a, b) =>
      MoreFuel(d, a, k, fuel, more, c);
      var first := Eval(d, a, k, fuel, c);
      if first.Done? {
        MoreFuel(d, b, k + Slots(a), fuel, more, first.core);
      }
    case IfThen(t) =>
      if c.ds != [] && Truth(c) {
        MoreFuel(d, t, k + 2, fuel, more, WithoutTop(c));
      }
    case IfElse(t, e) =>
      if c.ds != [] {
        if Truth(c) {
          MoreFuel(d, t, k + 2, fuel, more, WithoutTop(c));
        } else if d == Repaired {
          MoreFuel(d, e, k + 4 + Slots(t), fuel, more, WithoutTop(c));
        }
      }
    case Loop(b) =>
      MoreFuel(d, b, k, fuel, more, c);
      var first := Eval(d, b, k, fuel, c);
      if first.Done? && first.core.ds != [] && !Truth(first.core) {
        MoreFuel(d, p, k, fuel - 1, more - 1, WithoutTop(first.core));
      }
    case _ =>
  }

  // ---- one turn of the loop at each kind of code -----------------------------

  lemma FetchCell(mem: Memory, k: int, v: u32)
    requires mem.Valid() && Matches(mem.ext, k, [Value(v)])
    ensures Load32(mem, Addr(k)) == Success(v)
  {
    MatchesOne(mem.ext, k, v);
  }

  lemma FetchTwo(mem: Memory, k: int, v: u32, w: u32)
    requires mem.Valid() && Matches(mem.ext, k, [Value(v), Value(w)])
    ensures Load32(mem, Addr(k)) == Success(v) && Wrap(Addr(k) + 4) == Addr(k + 1)
    ensures Load32(mem, Addr(k + 1)) == Success(w) && Wrap(Addr(k + 1) + 4) == Addr(k + 2)
  {
    MatchesTwo(mem.ext, k, v, w);
  }

  /** Where a run stands after a turn at an atom. */
  predicate Arrives(o: Outcome, r: Run, ip: int) {
    o.At? && o.ip == ip && if r.Done? then o.core == r.core else o.core.abort
  }

  lemma AtomStep(d: Dialect, mem: Memory, p: Prog, k: int, c: Core)
    requires mem.Valid() && Runnable(c) && TextsFit(p) && InSpi(k, Slots(p))
    requires (p.Lit? || p.Call? || p.Str?) && Matches(mem.ext, k, Code(d, k, p))
    ensures Arrives(Step(d, mem, c, Addr(k)), EvalAtom(d, p, k, c), Addr(k + Slots(p)))
  {
    match p
    case Lit(v) => LitStep(d, mem, v, k, c);
    case Call(w) => CallStep(d, mem, w, k, c);
    case Str(t) => StrStep(d, mem, t, k, c);
  }

  /** A literal and a word, whatever the core. */
  lemma LitTurn(d: Dialect, mem: Memory, v: u32, k: int, c: Core)
    requires mem.Valid() && Matches(mem.ext, k, [Value(XT_LIT), Value(v)])
    ensures Step(d, mem, c, Addr(k)) == At(Push(c, v), Addr(k + 2))
  {
    hide Load32, Matches, Wrap;
    FetchTwo(mem, k, XT_LIT, v);
  }

  lemma CallTurn(d: Dialect, mem: Memory, w: Prim, k: int, c: Core)
    requires mem.Valid() && Matches(mem.ext, k, [Value(XtOf(d, w))])
    ensures Step(d, mem, c, Addr(k)) == At(ApplyPrim(CompiledAs(d, w), c), Addr(k + 1))
  {
    hide Load32, Wrap, XtOf, PrimOf, ApplyPrim, CompiledAs;
    FetchCell(mem, k, XtOf(d, w));
    WrapIs(Addr(k) + 4, 0);
    TokensInvert(d, w);
  }

  lemma LitStep(d: Dialect, mem: Memory, v: u32, k: int, c: Core)
    requires mem.Valid() && Runnable(c) && Matches(mem.ext, k, [Value(XT_LIT), Value(v)])
    ensures Arrives(Step(d, mem, c, Addr(k)), Pushed(c, [v]), Addr(k + 2))
  {
    hide Step, Matches;
    LitTurn(d, mem, v, k, c);
  }

  lemma CallStep(d: Dialect, mem: Memory, w: Prim, k: int, c: Core)
    requires mem.Valid() && Runnable(c) && Matches(mem.ext, k, [Value(XtOf(d, w))])
    ensures Arrives(Step(d, mem, c, Addr(k)), EvalAtom(d, Call(w), k, c), Addr(k + 1))
  {
    hide Step, Matches, XtOf, ApplyPrim, Effect, Enabled, CompiledAs;
    CallTurn(d, mem, w, k, c);
    PrimMeaning(CompiledAs(d, w), c);
  }

  lemma StrStep(d: Dialect, mem: Memory, t: seq<u8>, k: int, c: Core)
    requires mem.Valid() && Runnable(c) && |t| < STRING_BUFFER_SIZE
    requires Matches(mem.ext, k, StrCode(t)) && InSpi(k, 2 + |Pieces(t)|)
    ensures Arrives(Step(d, mem, c, Addr(k)), Pushed(c, [Addr(k + 2), |t|]), Addr(k + 2 + |Pieces(t)|))
  {
    hide Load32, Matches, Wrap, Pieces, AlignUp;
    WrapIs(|t|, 0);
    MatchesAppend(mem.ext, k, [Value(XT_S_QUOTE), Value(|t|)], Pieces(t));
    FetchTwo(mem, k, XT_S_QUOTE, |t|);
    PiecesFill(t);
    WrapIs(Addr(k + 2 + |Pieces(t)|), 0);
    var a: u32 := Addr(k + 2);
    assert c.ds + [a] + [|t|] == c.ds + [a, |t|];
  }

  /** The operand cells lead where they should. */
  lemma OperandTargets(d: Dialect, k: int, c: int)
    requires InSpi(k, 0) && InSpi(c, 1)
    ensures k > c ==> Wrap(Addr(c) + Signed(ForwardOperand(c, k))) == Addr(k)
    ensures k > c ==> ForwardOperand(c, k) == 4 * (k - c)
    ensures k < c ==> (if d == AsWritten then LoopOperand(d, k, c)
                       else Wrap(Addr(c) + Signed(LoopOperand(d, k, c)))) == Addr(k)
  {
  }

  /** BRANCH over an ELSE branch. */
  lemma BranchStep(d: Dialect, mem: Memory, k: int, target: int, c: Core)
    requires mem.Valid() && InSpi(target, 0) && k + 1 < target
    requires Matches(mem.ext, k, [Value(XT_BRANCH), Value(ForwardOperand(k + 1, target))])
    ensures Step(d, mem, c, Addr(k)) == At(c, Addr(target))
  {
    FetchTwo(mem, k, XT_BRANCH, ForwardOperand(k + 1, target));
    OperandTargets(d, target, k + 1);
  }

  /** 0BRANCH with its operand: an abort, the next cell, or the jump. */
  lemma ZeroBranchStep(d: Dialect, mem: Memory, k: int, operand: u32, c: Core)
    requires mem.Valid() && Runnable(c)
    requires Matches(mem.ext, k, [Value(XT_0BRANCH), Value(operand)])
    ensures var o := Step(d, mem, c, Addr(k));
            && o.At?
            && (c.ds == [] ==> o.core.abort)
            && (c.ds != [] ==> o.core == WithoutTop(c))
            && (c.ds != [] && Truth(c) ==> o.ip == Addr(k + 2))
            && (c.ds != [] && !Truth(c) ==>
                  o.ip == if d == AsWritten then operand else Wrap(Addr(k + 1) + Signed(operand)))
  {
    hide Load32, Matches, Wrap;
    FetchTwo(mem, k, XT_0BRANCH, operand);
  }

  /** The code of a program is the code of its parts. */
  lemma SeqParts(d: Dialect, ext: seq<u8>, a: Prog, b: Prog, k: int)
    requires Matches(ext, k, Code(d, k, Seq(a, b)))
    ensures Matches(ext, k, Code(d, k, a)) && Matches(ext, k + Slots(a), Code(d, k + Slots(a), b))
  {
    hide Matches, Code;
    CodeShape(d, k, Seq(a, b));
    CodeSize(d, k, a);
    MatchesAppend(ext, k, Code(d, k, a), Code(d, k + Slots(a), b));
  }

  lemma IfThenParts(d: Dialect, ext: seq<u8>, t: Prog, k: int)
    requires Matches(ext, k, Code(d, k, IfThen(t)))
    ensures Matches(ext, k, [Value(XT_0BRANCH), Value(ForwardOperand(k + 1, k + 2 + Slots(t)))])
    ensures Matches(ext, k + 2, Code(d, k + 2, t))
  {
    hide Matches, Code, ForwardOperand;
    CodeShape(d, k, IfThen(t));
    CodeSize(d, k + 2, t);
    MatchesAppend(ext, k, [Value(XT_0BRANCH), Value(ForwardOperand(k + 1, k + 2 + Slots(t)))], Code(d, k + 2, t));
  }

  lemma IfElseCells(ext: seq<u8>, k: int, yes: seq<Slot>, no: seq<Slot>)
    requires Matches(ext, k, IfElseCode(k, yes, no))
    ensures Matches(ext, k, [Value(XT_0BRANCH), Value(ForwardOperand(k + 1, k + 4 + |yes|))])
    ensures Matches(ext, k + 2, yes)
    ensures var mid := k + 2 + |yes|;
            && Matches(ext, mid, [Value(XT_BRANCH), Value(ForwardOperand(mid + 1, mid + 2 + |no|))])
            && Matches(ext, mid + 2, no)
  {
    hide Matches, ForwardOperand;
    var mid := k + 2 + |yes|;
    var head := [Value(XT_0BRANCH), Value(ForwardOperand(k + 1, k + 4 + |yes|))];
    var jump := [Value(XT_BRANCH), Value(ForwardOperand(mid + 1, mid + 2 + |no|))];
    MatchesAppend(ext, k, head + yes + jump, no);
    MatchesAppend(ext, k, head + yes, jump);
    MatchesAppend(ext, k, head, yes);
  }

  lemma IfElseParts(d: Dialect, ext: seq<u8>, t: Prog, e: Prog, k: int)
    requires Matches(ext, k, Code(d, k, IfElse(t, e)))
    ensures Matches(ext, k, [Value(XT_0BRANCH), Value(ForwardOperand(k + 1, k + 4 + Slots(t)))])
    ensures Matches(ext, k + 2, Code(d, k + 2, t))
    ensures var mid := k + 2 + Slots(t);
            && Matches(ext, mid, [Value(XT_BRANCH), Value(ForwardOperand(mid + 1, mid + 2 + Slots(e)))])
            && Matches(ext, mid + 2, Code(d, mid + 2, e))
  {
    hide Matches, Code, IfElseCode, ForwardOperand;
    CodeShape(d, k, IfElse(t, e));
    CodeSize(d, k + 2, t);
    CodeSize(d, k + 4 + Slots(t), e);
    IfElseCells(ext, k, Code(d, k + 2, t), Code(d, k + 4 + Slots(t), e));
  }

  lemma LoopParts(d: Dialect, ext: seq<u8>, b: Prog, k: int)
    requires Matches(ext, k, Code(d, k, Loop(b)))
    ensures Matches(ext, k, Code(d, k, b))
    ensures var end := k + Slots(b); Matches(ext, end, [Value(XT_0BRANCH), Value(LoopOperand(d, k, end + 1))])
  {
    hide Matches, Code, LoopOperand;
    CodeShape(d, k, Loop(b));
    CodeSize(d, k, b);
    MatchesAppend(ext, k, Code(d, k, b), [Value(XT_0BRANCH), Value(LoopOperand(d, k, k + Slots(b) + 1))]);
  }

  // ---- runs of the loop -----------------------------------------------------

  /** n turns lead from c at ip to c' at ip'. */
  ghost predicate Goes(d: Dialect, mem: Memory, n: nat, c: Core, ip: int, c': Core, ip': int) {
    && mem.Valid() && 0 <= ip < 0x1_0000_0000 && 0 <= ip' < 0x1_0000_0000
    && Steps(d, mem, n, c, ip) == At(c', ip')
  }

  lemma GoesStep(d: Dialect, mem: Memory, c: Core, ip: u32, c': Core, ip': u32)
    requires mem.Valid() && ip != 0 && Step(d, mem, c, ip) == At(c', ip')
    ensures Goes(d, mem, 1, c, ip, c', ip')
  {
    hide Step;
    assert Steps(d, mem, 0, c', ip') == At(c', ip');
  }

  lemma GoesJoin(d: Dialect, mem: Memory, n: nat, c: Core, ip: int, c1: Core, ip1: int, n': nat, c2: Core, ip2: int)
    requires Goes(d, mem, n, c, ip, c1, ip1)
    ensures Goes(d, mem, n', c1, ip1, c2, ip2) <==> Goes(d, mem, n + n', c, ip, c2, ip2)
  {
    hide Step, Steps;
    StepsAdd(d, mem, n, n', c, ip);
  }

  /** A run that leaves ip takes a turn there, and not one that aborts if the run
      ends without an abort. */
  lemma GoesFirst(d: Dialect, mem: Memory, n: nat, c: Core, ip: int, c': Core, ip': int)
    requires Goes(d, mem, n, c, ip, c', ip') && ip != ip' && ip != 0 && !c'.abort
    ensures n > 0 && Step(d, mem, c, ip).At?
    ensures var o := Step(d, mem, c, ip);
            !o.core.abort && Goes(d, mem, 1, c, ip, o.core, o.ip) && Goes(d, mem, n - 1, o.core, o.ip, c', ip')
  {
    hide Step;
    var o := Step(d, mem, c, ip);
    GoesStep(d, mem, c, ip, o.core, o.ip);
    if o.core.abort {
      AbortLatched(d, mem, n - 1, o.core, o.ip);
    }
  }

  /** The code of p stands at cell k, and a core is ready to run it. */
  ghost predicate Loaded(d: Dialect, mem: Memory, p: Prog, k: int, c: Core) {
    && mem.Valid() && Runnable(c) && TextsFit(p) && InSpi(k, Slots(p))
    && Matches(mem.ext, k, Code(d, k, p))
  }

  // ---- what the meaning says happens ----------------------------------------

  /** If the program's meaning is an answer, the fetch loop reaches the end of the
      code with it. */
  lemma {:induction false} Forward(d: Dialect, mem: Memory, p: Prog, k: int, fuel: nat, c: Core) returns (n: nat)
    requires Loaded(d, mem, p, k, c) && Eval(d, p, k, fuel, c).Done?
    ensures Goes(d, mem, n, c, Addr(k), Eval(d, p, k, fuel, c).core, Addr(k + Slots(p)))
    decreases fuel, p, 1
  {
    hide Matches, Code, Step;
    match p
    case Nothing => n := 0;
    case Seq(a, b) => n := ForwardSeq(d, mem, a, b, k, fuel, c);
    case IfThen(t) => n := ForwardIf(d, mem, p, k, fuel, c);
    case IfElse(t, e) => n := ForwardIf(d, mem, p, k, fuel, c);
    case Loop(b) => n := ForwardLoop(d, mem, b, k, fuel, c);
    case _ =>
      hide Runnable, EvalAtom;
      AtomStep(d, mem, p, k, c);
      n := 1;
      GoesStep(d, mem, c, Addr(k), Eval(d, p, k, fuel, c).core, Addr(k + Slots(p)));
  }

  lemma {:induction false} ForwardSeq(d: Dialect, mem: Memory, a: Prog, b: Prog, k: int, fuel: nat, c: Core)
    returns (n: nat)
    requires Loaded(d, mem, Seq(a, b), k, c) && Eval(d, Seq(a, b), k, fuel, c).Done?
    ensures Goes(d, mem, n, c, Addr(k), Eval(d, Seq(a, b), k, fuel, c).core, Addr(k + Slots(Seq(a, b))))
    decreases fuel, Seq(a, b), 0
  {
    hide Matches, Code, Runnable, Goes;
    SeqParts(d, mem.ext, a, b, k);
    var n1 := Forward(d, mem, a, k, fuel, c);
    var c1 := Eval(d, a, k, fuel, c).core;
    var n2 := Forward(d, mem, b, k + Slots(a), fuel, c1);
    n := n1 + n2;
    GoesJoin(d, mem, n1, c, Addr(k), c1, Addr(k + Slots(a)),
             n2, Eval(d, b, k + Slots(a), fuel, c1).core, Addr(k + Slots(a) + Slots(b)));
  }

  lemma {:induction false} ForwardIf(d: Dialect, mem: Memory, p: Prog, k: int, fuel: nat, c: Core) returns (n: nat)
    requires Loaded(d, mem, p, k, c) && Eval(d, p, k, fuel, c).Done? && (p.IfThen? || p.IfElse?)
    ensures Goes(d, mem, n, c, Addr(k), Eval(d, p, k, fuel, c).core, Addr(k + Slots(p)))
    decreases fuel, p, 0
  {
    hide Matches, Code, Runnable, Goes, ForwardOperand, Step, Wrap, EvalAtom, AfterBody, Pieces;
    var else_ := k + 2 + Slots(p.yes) + if p.IfElse? then 2 else 0;
    if p.IfThen? {
      IfThenParts(d, mem.ext, p.yes, k);
    } else {
      IfElseParts(d, mem.ext, p.yes, p.no, k);
    }
    ZeroBranchStep(d, mem, k, ForwardOperand(k + 1, else_), c);
    OperandTargets(d, else_, k + 1);
    var c1 := WithoutTop(c);
    var end, answer := k + Slots(p), Eval(d, p, k, fuel, c).core;
    if Truth(c) {
      GoesStep(d, mem, c, Addr(k), c1, Addr(k + 2));
      var n1 := Forward(d, mem, p.yes, k + 2, fuel, c1);
      n := 1 + n1;
      GoesJoin(d, mem, 1, c, Addr(k), c1, Addr(k + 2), n1, answer, Addr(k + 2 + Slots(p.yes)));
      if p.IfElse? {
        BranchStep(d, mem, k + 2 + Slots(p.yes), end, answer);
        GoesStep(d, mem, answer, Addr(k + 2 + Slots(p.yes)), answer, Addr(end));
        GoesJoin(d, mem, n, c, Addr(k), answer, Addr(k + 2 + Slots(p.yes)), 1, answer, Addr(end));
        n := n + 1;
      }
    } else {
      GoesStep(d, mem, c, Addr(k), c1, Addr(else_));
      n := 1;
      if p.IfElse? {
        var n1 := Forward(d, mem, p.no, else_, fuel, c1);
        GoesJoin(d, mem, 1, c, Addr(k), c1, Addr(else_), n1, answer, Addr(end));
        n := 1 + n1;
      }
    }
  }

  lemma {:induction false} ForwardLoop(d: Dialect, mem: Memory, b: Prog, k: int, fuel: nat, c: Core) returns (n: nat)
    requires Loaded(d, mem, Loop(b), k, c) && Eval(d, Loop(b), k, fuel, c).Done?
    ensures Goes(d, mem, n, c, Addr(k), Eval(d, Loop(b), k, fuel, c).core, Addr(k + Slots(Loop(b))))
    decreases fuel, Loop(b), 0
  {
    hide Matches, Code, Runnable, Goes, LoopOperand, Step, Wrap;
    LoopParts(d, mem.ext, b, k);
    var end, answer := k + Slots(b), Eval(d, Loop(b), k, fuel, c).core;
    var n1 := Forward(d, mem, b, k, fuel, c);
    var c1 := Eval(d, b, k, fuel, c).core;
    ZeroBranchStep(d, mem, end, LoopOperand(d, k, end + 1), c1);
    OperandTargets(d, k, end + 1);
    var c2 := WithoutTop(c1);
    n := n1 + 1;
    if Truth(c1) {
      GoesStep(d, mem, c1, Addr(end), c2, Addr(end + 2));
      GoesJoin(d, mem, n1, c, Addr(k), c1, Addr(end), 1, c2, Addr(end + 2));
    } else {
      GoesStep(d, mem, c1, Addr(end), c2, Addr(k));
      GoesJoin(d, mem, n1, c, Addr(k), c1, Addr(end), 1, c2, Addr(k));
      var n2 := Forward(d, mem, Loop(b), k, fuel - 1, c2);
      GoesJoin(d, mem, n, c, Addr(k), c2, Addr(k), n2, answer, Addr(end + 2));
      n := n + n2;
    }
  }

  // ---- what happens is what the meaning says --------------------------------

  /** A place in the SPI-RAM outside cells k..k+n. */
  predicate Outside(ip: int, k: int, n: int) {
    EXT_BASE <= ip && (ip < Addr(k) || Addr(k + n) <= ip)
  }

  /** A run from the start of the code to anywhere outside it, if it does not abort,
      passes the end of the code, and arrives there with the program's meaning. */
  lemma {:induction false} Backward(d: Dialect, mem: Memory, p: Prog, k: int, n: nat, c: Core, c': Core, ip': int)
    returns (n1: nat, c1: Core)
    requires Loaded(d, mem, p, k, c)
    requires Goes(d, mem, n, c, Addr(k), c', ip') && !c'.abort && Outside(ip', k, Slots(p))
    ensures n1 <= n && Eval(d, p, k, n, c) == Done(c1)
    ensures Goes(d, mem, n1, c, Addr(k), c1, Addr(k + Slots(p)))
    decreases n, p, 2
  {
    hide Matches, Code, Step, Wrap;
    match p
    case Nothing => n1, c1 := 0, c;
    case Seq(a, b) => n1, c1 := BackwardSeq(d, mem, a, b, k, n, c, c', ip');
    case IfThen(t) => n1, c1 := BackwardIf(d, mem, p, k, n, c, c', ip');
    case IfElse(t, e) => n1, c1 := BackwardIf(d, mem, p, k, n, c, c', ip');
    case Loop(b) => n1, c1 := BackwardLoop(d, mem, b, k, n, c, c', ip');
    case _ =>
      hide Runnable, EvalAtom;
      AtomStep(d, mem, p, k, c);
      GoesFirst(d, mem, n, c, Addr(k), c', ip');
      n1, c1 := 1, EvalAtom(d, p, k, c).core;
  }

  lemma {:induction false} BackwardSeq(d: Dialect, mem: Memory, a: Prog, b: Prog, k: int, n: nat, c: Core,
                                       c': Core, ip': int)
    returns (n1: nat, c1: Core)
    requires Loaded(d, mem, Seq(a, b), k, c)
    requires Goes(d, mem, n, c, Addr(k), c', ip') && !c'.abort && Outside(ip', k, Slots(Seq(a, b)))
    ensures n1 <= n && Eval(d, Seq(a, b), k, n, c) == Done(c1)
    ensures Goes(d, mem, n1, c, Addr(k), c1, Addr(k + Slots(Seq(a, b))))
    decreases n, Seq(a, b), 0
  {
    hide Matches, Code, Runnable, Goes, Step, Wrap, EvalAtom;
    SeqParts(d, mem.ext, a, b, k);
    var mid := k + Slots(a);
    var m, c0 := Backward(d, mem, a, k, n, c, c', ip');
    GoesJoin(d, mem, m, c, Addr(k), c0, Addr(mid), n - m, c', ip');
    var m', c1' := Backward(d, mem, b, mid, n - m, c0, c', ip');
    n1, c1 := m + m', c1';
    GoesJoin(d, mem, m, c, Addr(k), c0, Addr(mid), m', c1, Addr(mid + Slots(b)));
    MoreFuel(d, b, mid, n - m, n, c0);
  }

  /** From where no memory answers, a run goes nowhere. */
  lemma NoWayBack(d: Dialect, mem: Memory, n: nat, c: Core, ip: int, c': Core, ip': int)
    requires Goes(d, mem, n, c, ip, c', ip') && 0 < ip < FAST_BASE
    ensures n == 0 && ip' == ip
  {
    assert Load32(mem, ip).Failure?;
  }

  lemma {:induction false} BackwardIf(d: Dialect, mem: Memory, p: Prog, k: int, n: nat, c: Core, c': Core, ip': int)
    returns (n1: nat, c1: Core)
    requires Loaded(d, mem, p, k, c) && (p.IfThen? || p.IfElse?)
    requires Goes(d, mem, n, c, Addr(k), c', ip') && !c'.abort && Outside(ip', k, Slots(p))
    ensures n1 <= n && Eval(d, p, k, n, c) == Done(c1)
    ensures Goes(d, mem, n1, c, Addr(k), c1, Addr(k + Slots(p)))
    decreases n, p, 1
  {
    hide Matches, Code, Runnable, Goes, ForwardOperand, Step, Wrap, EvalAtom;
    var else_ := k + 2 + Slots(p.yes) + if p.IfElse? then 2 else 0;
    if p.IfThen? {
      IfThenParts(d, mem.ext, p.yes, k);
    } else {
      IfElseParts(d, mem.ext, p.yes, p.no, k);
    }
    ZeroBranchStep(d, mem, k, ForwardOperand(k + 1, else_), c);
    OperandTargets(d, else_, k + 1);
    GoesFirst(d, mem, n, c, Addr(k), c', ip');
    var c0 := WithoutTop(c);
    if Truth(c) {
      n1, c1 := BackwardYes(d, mem, p, k, n, c, c0, c', ip');
    } else if d == AsWritten {
      NoWayBack(d, mem, n - 1, c0, 4 * (else_ - k - 1), c', ip');
      assert false;
    } else if p.IfThen? {
      n1, c1 := 1, c0;
    } else {
      var m, cm := Backward(d, mem, p.no, else_, n - 1, c0, c', ip');
      n1, c1 := 1 + m, cm;
      GoesJoin(d, mem, 1, c, Addr(k), c0, Addr(else_), m, c1, Addr(k + Slots(p)));
      MoreFuel(d, p.no, else_, n - 1, n, c0);
    }
  }

  lemma {:induction false} BackwardYes(d: Dialect, mem: Memory, p: Prog, k: int, n: nat, c: Core, c0: Core,
                                       c': Core, ip': int)
    returns (n1: nat, c1: Core)
    requires Loaded(d, mem, p, k, c) && (p.IfThen? || p.IfElse?) && c.ds != [] && Truth(c) && c0 == WithoutTop(c)
    requires n > 0 && Goes(d, mem, 1, c, Addr(k), c0, Addr(k + 2))
    requires Goes(d, mem, n - 1, c0, Addr(k + 2), c', ip') && !c'.abort && Outside(ip', k, Slots(p))
    ensures n1 <= n && Eval(d, p, k, n, c) == Done(c1)
    ensures Goes(d, mem, n1, c, Addr(k), c1, Addr(k + Slots(p)))
    decreases n, p, 0
  {
    hide Matches, Code, Runnable, Goes, ForwardOperand, Step, Wrap, EvalAtom;
    var mid, end := k + 2 + Slots(p.yes), k + Slots(p);
    if p.IfThen? {
      IfThenParts(d, mem.ext, p.yes, k);
    } else {
      IfElseParts(d, mem.ext, p.yes, p.no, k);
    }
    var m, cm := Backward(d, mem, p.yes, k + 2, n - 1, c0, c', ip');
    n1, c1 := 1 + m, cm;
    GoesJoin(d, mem, 1, c, Addr(k), c0, Addr(k + 2), m, c1, Addr(mid));
    MoreFuel(d, p.yes, k + 2, n - 1, n, c0);
    if p.IfElse? {
      GoesJoin(d, mem, m, c0, Addr(k + 2), c1, Addr(mid), n - 1 - m, c', ip');
      GoesFirst(d, mem, n - 1 - m, c1, Addr(mid), c', ip');
      BranchStep(d, mem, mid, end, c1);
      GoesJoin(d, mem, n1, c, Addr(k), c1, Addr(mid), 1, c1, Addr(end));
      n1 := n1 + 1;
    }
  }

  lemma {:induction false} BackwardLoop(d: Dialect, mem: Memory, b: Prog, k: int, n: nat, c: Core, c': Core, ip': int)
    returns (n1: nat, c1: Core)
    requires Loaded(d, mem, Loop(b), k, c)
    requires Goes(d, mem, n, c, Addr(k), c', ip') && !c'.abort && Outside(ip', k, Slots(Loop(b)))
    ensures n1 <= n && Eval(d, Loop(b), k, n, c) == Done(c1)
    ensures Goes(d, mem, n1, c, Addr(k), c1, Addr(k + Slots(Loop(b))))
    decreases n, Loop(b), 0
  {
    hide Matches, Code, Runnable, Goes, LoopOperand, Step, Wrap, EvalAtom;
    LoopParts(d, mem.ext, b, k);
    var end := k + Slots(b);
    var m, cb := Backward(d, mem, b, k, n, c, c', ip');
    GoesJoin(d, mem, m, c, Addr(k), cb, Addr(end), n - m, c', ip');
    GoesFirst(d, mem, n - m, cb, Addr(end), c', ip');
    ZeroBranchStep(d, mem, end, LoopOperand(d, k, end + 1), cb);
    OperandTargets(d, k, end + 1);
    var c0 := WithoutTop(cb);
    if Truth(cb) {
      n1, c1 := m + 1, c0;
      GoesJoin(d, mem, m, c, Addr(k), cb, Addr(end), 1, c0, Addr(end + 2));
    } else {
      GoesJoin(d, mem, m, c, Addr(k), cb, Addr(end), 1, c0, Addr(k));
      var m', cm := Backward(d, mem, Loop(b), k, n - m - 1, c0, c', ip');
      n1, c1 := m + 1 + m', cm;
      GoesJoin(d, mem, m + 1, c, Addr(k), c0, Addr(k), m', c1, Addr(end + 2));
      MoreFuel(d, Loop(b), k, n - m - 1, n - 1, c0);
    }
  }

  // ---- runs without an answer -----------------------------------------------

  /** As written, IF on a false flag leaves the memory map: two turns later the
      process has ended. */
  lemma FalseIfFaults(mem: Memory, p: Prog, k: int, c: Core)
    requires Loaded(AsWritten, mem, p, k, c) && (p.IfThen? || p.IfElse?)
    requires c.ds != [] && !Truth(c)
    ensures Steps(AsWritten, mem, 2, c, Addr(k))
         == Crash(Violation(4 * (1 + Slots(p.yes) + if p.IfElse? then 2 else 0)))
  {
    hide Matches, Code, ForwardOperand, Step, Wrap;
    var else_ := k + 2 + Slots(p.yes) + if p.IfElse? then 2 else 0;
    if p.IfThen? {
      IfThenParts(AsWritten, mem.ext, p.yes, k);
    } else {
      IfElseParts(AsWritten, mem.ext, p.yes, p.no, k);
    }
    ZeroBranchStep(AsWritten, mem, k, ForwardOperand(k + 1, else_), c);
    OperandTargets(AsWritten, else_, k + 1);
    var ip: u32 := 4 * (else_ - k - 1);
    LowFetchFaults(mem, WithoutTop(c), ip);
    assert Steps(AsWritten, mem, 1, WithoutTop(c), ip) == Crash(Violation(ip));
  }

  lemma LowFetchFaults(mem: Memory, c: Core, ip: u32)
    requires mem.Valid() && ip < FAST_BASE && ip % 4 == 0
    ensures Step(AsWritten, mem, c, ip) == Crash(Violation(ip))
  {
  }

  /** What stands behind a meaning that is no answer: an aborted machine, the end of the
      process, or a run that is still going after fuel turns. */
  predicate Ends(o: Outcome, r: Run, n: nat, fuel: nat) {
    match r
    case Done(_) => false
    case Aborted => o.At? && o.core.abort
    case Faulted => o.Crash?
    case OutOfFuel => o.At? && !o.core.abort && n >= fuel
  }

  lemma EndsLater(d: Dialect, mem: Memory, n: nat, c: Core, ip: int, c1: Core, ip1: u32, r: Run, n': nat,
                  fuel: nat, more: nat)
    requires Goes(d, mem, n, c, ip, c1, ip1) && Ends(Steps(d, mem, n', c1, ip1), r, n', fuel) && more <= n + fuel
    ensures Ends(Steps(d, mem, n + n', c, ip), r, n + n', more)
  {
    hide Steps;
    StepsAdd(d, mem, n, n', c, ip);
  }

  /** If the program's meaning is no answer, the fetch loop comes to the like end. */
  lemma {:induction false} Otherwise(d: Dialect, mem: Memory, p: Prog, k: int, fuel: nat, c: Core) returns (n: nat)
    requires Loaded(d, mem, p, k, c) && !Eval(d, p, k, fuel, c).Done?
    ensures Ends(Steps(d, mem, n, c, Addr(k)), Eval(d, p, k, fuel, c), n, fuel)
    decreases fuel, p, 1
  {
    hide Matches, Code, Step;
    match p
    case Seq(a, b) => n := OtherwiseSeq(d, mem, a, b, k, fuel, c);
    case IfThen(t) => n := OtherwiseIf(d, mem, p, k, fuel, c);
    case IfElse(t, e) => n := OtherwiseIf(d, mem, p, k, fuel, c);
    case Loop(b) => n := OtherwiseLoop(d, mem, b, k, fuel, c);
    case Nothing => assert false;
    case _ =>
      hide Runnable;
      n := 1;
      AtomStep(d, mem, p, k, c);
      AtomRuns(d, p, k, c);
      hide EvalAtom;
      var o := Step(d, mem, c, Addr(k));
      GoesStep(d, mem, c, Addr(k), o.core, o.ip);
  }

  lemma AtomRuns(d: Dialect, p: Prog, k: int, c: Core)
    requires Runnable(c) && TextsFit(p) && InSpi(k, Slots(p))
    ensures EvalAtom(d, p, k, c).Done? || EvalAtom(d, p, k, c).Aborted?
  {
    hide Enabled, Effect, CompiledAs;
  }

  lemma {:induction false} OtherwiseSeq(d: Dialect, mem: Memory, a: Prog, b: Prog, k: int, fuel: nat, c: Core)
    returns (n: nat)
    requires Loaded(d, mem, Seq(a, b), k, c) && !Eval(d, Seq(a, b), k, fuel, c).Done?
    ensures Ends(Steps(d, mem, n, c, Addr(k)), Eval(d, Seq(a, b), k, fuel, c), n, fuel)
    decreases fuel, Seq(a, b), 0
  {
    hide Matches, Code, Runnable, Goes, Steps, Ends;
    SeqParts(d, mem.ext, a, b, k);
    var first := Eval(d, a, k, fuel, c);
    if first.Done? {
      var mid := k + Slots(a);
      var n1 := Forward(d, mem, a, k, fuel, c);
      var n2 := Otherwise(d, mem, b, mid, fuel, first.core);
      n := n1 + n2;
      EndsLater(d, mem, n1, c, Addr(k), first.core, Addr(mid), Eval(d, b, mid, fuel, first.core), n2, fuel, fuel);
    } else {
      n := Otherwise(d, mem, a, k, fuel, c);
    }
  }

  lemma {:induction false} OtherwiseIf(d: Dialect, mem: Memory, p: Prog, k: int, fuel: nat, c: Core) returns (n: nat)
    requires Loaded(d, mem, p, k, c) && !Eval(d, p, k, fuel, c).Done? && (p.IfThen? || p.IfElse?)
    ensures Ends(Steps(d, mem, n, c, Addr(k)), Eval(d, p, k, fuel, c), n, fuel)
    decreases fuel, p, 0
  {
    hide Matches, Code, Runnable, ForwardOperand, Step, Wrap, EvalAtom, AfterBody, Pieces;
    var else_ := k + 2 + Slots(p.yes) + if p.IfElse? then 2 else 0;
    if p.IfThen? {
      IfThenParts(d, mem.ext, p.yes, k);
    } else {
      IfElseParts(d, mem.ext, p.yes, p.no, k);
    }
    ZeroBranchStep(d, mem, k, ForwardOperand(k + 1, else_), c);
    OperandTargets(d, else_, k + 1);
    var o := Step(d, mem, c, Addr(k));
    GoesStep(d, mem, c, Addr(k), o.core, o.ip);
    if c.ds == [] {
      n := 1;
    } else if Truth(c) {
      hide Steps, Ends, Goes;
      var n1 := Otherwise(d, mem, p.yes, k + 2, fuel, o.core);
      n := 1 + n1;
      EndsLater(d, mem, 1, c, Addr(k), o.core, o.ip, Eval(d, p.yes, k + 2, fuel, o.core), n1, fuel, fuel);
    } else if d == AsWritten {
      n := 2;
      FalseIfFaults(mem, p, k, c);
    } else {
      hide Steps, Ends, Goes;
      var n1 := Otherwise(d, mem, p.no, else_, fuel, o.core);
      n := 1 + n1;
      EndsLater(d, mem, 1, c, Addr(k), o.core, o.ip, Eval(d, p.no, else_, fuel, o.core), n1, fuel, fuel);
    }
  }

  lemma {:induction false} OtherwiseLoop(d: Dialect, mem: Memory, b: Prog, k: int, fuel: nat, c: Core) returns (n: nat)
    requires Loaded(d, mem, Loop(b), k, c) && !Eval(d, Loop(b), k, fuel, c).Done?
    ensures Ends(Steps(d, mem, n, c, Addr(k)), Eval(d, Loop(b), k, fuel, c), n, fuel)
    decreases fuel, Loop(b), 0
  {
    hide Matches, Code, Goes, LoopOperand, Step, Wrap, EvalAtom, Steps;
    LoopParts(d, mem.ext, b, k);
    var end := k + Slots(b);
    var first := Eval(d, b, k, fuel, c);
    if !first.Done? {
      n := Otherwise(d, mem, b, k, fuel, c);
    } else {
      var c1 := first.core;
      var n1 := Forward(d, mem, b, k, fuel, c);
      ZeroBranchStep(d, mem, end, LoopOperand(d, k, end + 1), c1);
      OperandTargets(d, k, end + 1);
      var o := Step(d, mem, c1, Addr(end));
      GoesStep(d, mem, c1, Addr(end), o.core, o.ip);
      GoesJoin(d, mem, n1, c, Addr(k), c1, Addr(end), 1, o.core, o.ip);
      n := n1 + 1;
      GoesIsSteps(d, mem, n, c, Addr(k), o.core, o.ip);
      if c1.ds != [] && fuel > 0 {
        var n2 := Otherwise(d, mem, Loop(b), k, fuel - 1, o.core);
        EndsLater(d, mem, n, c, Addr(k), o.core, o.ip, Eval(d, Loop(b), k, fuel - 1, o.core), n2, fuel - 1, fuel);
        n := n + n2;
      }
    }
  }

  lemma GoesIsSteps(d: Dialect, mem: Memory, n: nat, c: Core, ip: int, c': Core, ip': int)
    requires Goes(d, mem, n, c, ip, c', ip')
    ensures mem.Valid() && 0 <= ip < 0x1_0000_0000 && Steps(d, mem, n, c, ip) == At(c', ip')
  {
  }
}
