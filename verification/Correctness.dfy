/** The compiler correctness theorem, and exactly when IF as written keeps it. */
module Correctness {
  import opened Words
  import opened Bus
  import opened Stacks
  import opened Threaded
  import opened Compiler
  import opened Nesting
  import opened Simulation

  ghost predicate AtEnd(d: Dialect, mem: Memory, n: nat, c: Core, k: int, end: int) {
    exists c' :: Goes(d, mem, n, c, Addr(k), c', Addr(end))
  }

  ghost predicate NotBefore(d: Dialect, mem: Memory, n: nat, c: Core, k: int, end: int) {
    forall i: nat | i < n :: !AtEnd(d, mem, i, c, k, end)
  }

  /** After n turns the fetch loop is at the end of the code for the first time, with
      c' and no abort. */
  ghost predicate ArrivesFirst(d: Dialect, mem: Memory, p: Prog, k: int, n: nat, c: Core, c': Core) {
    && Goes(d, mem, n, c, Addr(k), c', Addr(k + Slots(p))) && !c'.abort
    && NotBefore(d, mem, n, c, k, k + Slots(p))
  }

  /** The fetch loop, started on the code of p, reaches its end with c'. */
  ghost predicate Reaches(d: Dialect, mem: Memory, p: Prog, k: int, c: Core, c': Core) {
    exists n: nat :: ArrivesFirst(d, mem, p, k, n, c, c')
  }

  ghost predicate Means(d: Dialect, p: Prog, k: int, c: Core, c': Core)
    requires Runnable(c) && TextsFit(p) && InSpi(k, Slots(p))
  {
    exists fuel: nat :: Eval(d, p, k, fuel, c) == Done(c')
  }

  lemma {:induction false} EarliestEnd(d: Dialect, mem: Memory, n: nat, c: Core, k: int, end: int) returns (n0: nat)
    requires AtEnd(d, mem, n, c, k, end)
    ensures n0 <= n && AtEnd(d, mem, n0, c, k, end) && NotBefore(d, mem, n0, c, k, end)
    decreases n
  {
    hide AtEnd;
    n0 := n;
    if i: nat :| i < n && AtEnd(d, mem, i, c, k, end) {
      n0 := EarliestEnd(d, mem, i, c, k, end);
    }
  }

  /** Where a run arrives first is what the program means. */
  lemma ArrivalMeans(d: Dialect, mem: Memory, p: Prog, k: int, n: nat, c: Core, c': Core)
    requires Loaded(d, mem, p, k, c) && ArrivesFirst(d, mem, p, k, n, c, c')
    ensures Eval(d, p, k, n, c) == Done(c')
  {
    hide Eval, Code, Matches, Goes, Runnable, Slots;
    var n1, c1 := Backward(d, mem, p, k, n, c, c', Addr(k + Slots(p)));
    assert AtEnd(d, mem, n1, c, k, k + Slots(p));
    GoesOnce(d, mem, n, c, Addr(k), c', Addr(k + Slots(p)), c1, Addr(k + Slots(p)));
  }

  lemma GoesOnce(d: Dialect, mem: Memory, n: nat, c: Core, ip: int, c1: Core, ip1: int, c2: Core, ip2: int)
    requires Goes(d, mem, n, c, ip, c1, ip1) && Goes(d, mem, n, c, ip, c2, ip2)
    ensures c1 == c2
  {
    hide Steps;
  }

  lemma GoesOnAborted(d: Dialect, mem: Memory, n: nat, n': nat, c: Core, ip: int,
                      c1: Core, ip1: int, c2: Core, ip2: int)
    requires Goes(d, mem, n, c, ip, c1, ip1) && Goes(d, mem, n', c, ip, c2, ip2) && n <= n' && c1.abort
    ensures c2.abort
  {
    hide Steps;
    GoesJoin(d, mem, n, c, ip, c1, ip1, n' - n, c2, ip2);
    AbortLatched(d, mem, n' - n, c1, ip1);
  }

  /** For every program and every memory that holds its code, the fetch loop reaches
      the end of the code with c' if and only if the program's meaning is c'. */
  lemma FetchLoopCorrect(d: Dialect, mem: Memory, p: Prog, k: int, c: Core, c': Core)
    requires Loaded(d, mem, p, k, c)
    ensures Reaches(d, mem, p, k, c, c') <==> Means(d, p, k, c, c')
  {
    hide Eval, Code, Matches;
    if Reaches(d, mem, p, k, c, c') {
      var n: nat :| ArrivesFirst(d, mem, p, k, n, c, c');
      ArrivalMeans(d, mem, p, k, n, c, c');
    }
    if Means(d, p, k, c, c') {
      MeaningArrives(d, mem, p, k, c, c');
    }
  }

  lemma MeaningArrives(d: Dialect, mem: Memory, p: Prog, k: int, c: Core, c': Core)
    requires Loaded(d, mem, p, k, c) && Means(d, p, k, c, c')
    ensures Reaches(d, mem, p, k, c, c')
  {
    hide Eval, Code, Matches, Goes;
    var fuel: nat :| Eval(d, p, k, fuel, c) == Done(c');
    var end := k + Slots(p);
    var n := Forward(d, mem, p, k, fuel, c);
    assert AtEnd(d, mem, n, c, k, end);
    var n0 := EarliestEnd(d, mem, n, c, k, end);
    var c0 :| Goes(d, mem, n0, c, Addr(k), c0, Addr(end));
    if c0.abort {
      GoesOnAborted(d, mem, n0, n, c, Addr(k), c0, Addr(end), c', Addr(end));
    }
    ArrivalMeans(d, mem, p, k, n0, c, c0);
    MoreFuel(d, p, k, fuel, fuel + n0, c);
    MoreFuel(d, p, k, n0, fuel + n0, c);
    assert ArrivesFirst(d, mem, p, k, n0, c, c');
  }

  /** Every branch operand of the program at cell k, as a distance in bytes or an
      address: IF and ELSE lead past their branch, UNTIL leads to its BEGIN. */
  ghost predicate Patched(d: Dialect, ext: seq<u8>, p: Prog, k: int)
    requires |ext| == EXT_SIZE && InSpi(k, Slots(p))
  {
    match p
    case Seq(a, b) => Patched(d, ext, a, k) && Patched(d, ext, b, k + Slots(a))
    case IfThen(t) => Get32(ext, 4 * (k + 1)) == 4 * (1 + Slots(t)) && Patched(d, ext, t, k + 2)
    case IfElse(t, e) =>
      var mid := k + 2 + Slots(t);
      && Get32(ext, 4 * (k + 1)) == 4 * (mid + 2 - (k + 1)) && Patched(d, ext, t, k + 2)
      && Get32(ext, 4 * (mid + 1)) == 4 * (1 + Slots(e)) && Patched(d, ext, e, mid + 2)
    case Loop(b) =>
      var operand := k + Slots(b) + 1;
      && Get32(ext, 4 * operand) == (if d == AsWritten then Addr(k) else Wrap(Addr(k) - Addr(operand)))
      && Patched(d, ext, b, k)
    case _ => true
  }

  lemma {:induction false} OperandsPatched(d: Dialect, ext: seq<u8>, p: Prog, k: int)
    requires |ext| == EXT_SIZE && InSpi(k, Slots(p)) && Matches(ext, k, Code(d, k, p))
    ensures Patched(d, ext, p, k)
    decreases p
  {
    hide Matches, Code, Get32, Wrap, Slots;
    PartsReady(p);
    match p
    case Seq(a, b) =>
      SeqParts(d, ext, a, b, k);
      OperandsPatched(d, ext, a, k);
      OperandsPatched(d, ext, b, k + Slots(a));
    case IfThen(t) =>
      IfThenParts(d, ext, t, k);
      MatchesTwo(ext, k, XT_0BRANCH, ForwardOperand(k + 1, k + 2 + Slots(t)));
      OperandTargets(d, k + 2 + Slots(t), k + 1);
      OperandsPatched(d, ext, t, k + 2);
    case IfElse(t, e) =>
      var mid := k + 2 + Slots(t);
      IfElseParts(d, ext, t, e, k);
      MatchesTwo(ext, k, XT_0BRANCH, ForwardOperand(k + 1, mid + 2));
      MatchesTwo(ext, mid, XT_BRANCH, ForwardOperand(mid + 1, mid + 2 + Slots(e)));
      OperandTargets(d, mid + 2, k + 1);
      OperandTargets(d, mid + 2 + Slots(e), mid + 1);
      OperandsPatched(d, ext, t, k + 2);
      OperandsPatched(d, ext, e, mid + 2);
    case Loop(b) =>
      var operand := k + Slots(b) + 1;
      LoopParts(d, ext, b, k);
      MatchesTwo(ext, k + Slots(b), XT_0BRANCH, LoopOperand(d, k, operand));
      WrapIs(Addr(k), 0);
      OperandsPatched(d, ext, b, k);
    case _ =>
  }

  /** Compiling any well-nested text and running what was compiled computes what the
      text means. */
  lemma CompileThenRun(d: Dialect, p: Prog, m: Machine, k: int) returns (m': Machine)
    requires Ready(p, m, k) && NestingFits(p, m.core)
    ensures (forall w | w in Text(p) :: Parsed(w)) && Interpret(d, Text(p), m) == Success(m')
    ensures m'.here == Addr(k + Slots(p)) && m'.core == m.core && m'.mem.Valid() && Patched(d, m'.mem.ext, p, k)
    ensures forall c, c' | Runnable(c) :: Reaches(d, m'.mem, p, k, c, c') <==> Means(d, p, k, c, c')
  {
    hide Eval, Code, Matches, Text, Interpret, Reaches, Means, OnlyIn, Runnable, Patched;
    m' := CompileText(d, p, m, k);
    OperandsPatched(d, m'.mem.ext, p, k);
    forall c, c' | Runnable(c)
      ensures Reaches(d, m'.mem, p, k, c, c') <==> Means(d, p, k, c, c')
    {
      FetchLoopCorrect(d, m'.mem, p, k, c, c');
    }
  }

  // ---- runs without an answer -----------------------------------------------

  /** The process has ended, the machine has aborted, or the loop is still going. */
  ghost predicate Crashes(d: Dialect, mem: Memory, k: int, c: Core)
    requires mem.Valid() && InSpi(k, 0)
  {
    exists n: nat :: Steps(d, mem, n, c, Addr(k)).Crash?
  }

  ghost predicate Aborts(d: Dialect, mem: Memory, k: int, c: Core)
    requires mem.Valid() && InSpi(k, 0)
  {
    exists n: nat :: Going(Steps(d, mem, n, c, Addr(k)), true)
  }

  predicate Going(o: Outcome, abort: bool) {
    o.At? && o.core.abort == abort
  }

  /** A program whose meaning is an abort aborts, one whose meaning is a fault ends the
      process, and one that has no answer with any fuel runs forever. */
  lemma FetchLoopOutcomes(d: Dialect, mem: Memory, p: Prog, k: int, c: Core)
    requires Loaded(d, mem, p, k, c)
    ensures forall fuel: nat :: Eval(d, p, k, fuel, c).Aborted? ==> Aborts(d, mem, k, c)
    ensures forall fuel: nat :: Eval(d, p, k, fuel, c).Faulted? ==> Crashes(d, mem, k, c)
    ensures (forall fuel: nat :: Eval(d, p, k, fuel, c).OutOfFuel?) ==>
              forall n: nat :: Going(Steps(d, mem, n, c, Addr(k)), false)
  {
    hide Eval, Code, Matches, Steps;
    forall fuel: nat
      ensures Eval(d, p, k, fuel, c).Aborted? ==> Aborts(d, mem, k, c)
      ensures Eval(d, p, k, fuel, c).Faulted? ==> Crashes(d, mem, k, c)
    {
      if !Eval(d, p, k, fuel, c).Done? {
        var n := Otherwise(d, mem, p, k, fuel, c);
        assert Eval(d, p, k, fuel, c).Aborted? ==> Going(Steps(d, mem, n, c, Addr(k)), true);
      }
    }
    if forall fuel: nat :: Eval(d, p, k, fuel, c).OutOfFuel? {
      forall n: nat
        ensures Going(Steps(d, mem, n, c, Addr(k)), false)
      {
        assert Eval(d, p, k, n, c).OutOfFuel?;
        var n' := Otherwise(d, mem, p, k, n, c);
        GoingBefore(d, mem, n, n', c, Addr(k));
      }
    }
  }

  lemma GoingBefore(d: Dialect, mem: Memory, n: nat, n': nat, c: Core, ip: u32)
    requires mem.Valid() && n <= n' && Going(Steps(d, mem, n', c, ip), false)
    ensures Going(Steps(d, mem, n, c, ip), false)
  {
    hide Steps;
    StepsAdd(d, mem, n, n' - n, c, ip);
    var o := Steps(d, mem, n, c, ip);
    if o.At? && o.core.abort {
      AbortLatched(d, mem, n' - n, o.core, o.ip);
    }
  }

  // ---- EXIT -----------------------------------------------------------------

  /** A whole word, body and EXIT: the loop goes on at the last cell of the return stack
      the body leaves, or aborts when it leaves none. */
  lemma BodyThenExit(d: Dialect, mem: Memory, p: Prog, k: int, c: Core, c': Core) returns (n: nat)
    requires Loaded(d, mem, p, k, c) && Means(d, p, k, c, c')
    requires InSpi(k + Slots(p), 1) && Matches(mem.ext, k + Slots(p), [Value(XT_EXIT)])
    ensures Steps(d, mem, n, c, Addr(k)) == At(RPop(c').0, RPop(c').1)
  {
    hide Eval, Code, Matches, Wrap, Load32;
    MeaningArrives(d, mem, p, k, c, c');
    var n0: nat :| ArrivesFirst(d, mem, p, k, n0, c, c');
    var end := k + Slots(p);
    FetchCell(mem, end, XT_EXIT);
    var (c1, back) := RPop(c');
    GoesStep(d, mem, c', Addr(end), c1, back);
    GoesJoin(d, mem, n0, c, Addr(k), c', Addr(end), 1, c1, back);
    n := n0 + 1;
  }

  lemma AtomKeepsReturnStack(d: Dialect, p: Prog, k: int, c: Core)
    requires Runnable(c) && TextsFit(p) && InSpi(k, Slots(p)) && !Mentions(p, ToR) && !Mentions(p, FromR)
    ensures var r := EvalAtom(d, p, k, c); r.Done? ==> r.core.rs == c.rs
  {
    hide Enabled, Outputs;
  }

  /** A program without >R and R> leaves the return stack alone. */
  lemma {:induction false} ReturnStackKept(d: Dialect, p: Prog, k: int, fuel: nat, c: Core)
    requires Runnable(c) && TextsFit(p) && InSpi(k, Slots(p)) && !Mentions(p, ToR) && !Mentions(p, FromR)
    ensures var r := Eval(d, p, k, fuel, c); r.Done? ==> r.core.rs == c.rs
    decreases fuel, p
  {
    hide Runnable, EvalAtom;
    match p
    case Seq(a, b) =>
      ReturnStackKept(d, a, k, fuel, c);
      var first := Eval(d, a, k, fuel, c);
      if first.Done? {
        ReturnStackKept(d, b, k + Slots(a), fuel, first.core);
      }
    case IfThen(t) =>
      if c.ds != [] {
        ReturnStackKept(d, t, k + 2, fuel, WithoutTop(c));
      }
    case IfElse(t, e) =>
      if c.ds != [] {
        ReturnStackKept(d, t, k + 2, fuel, WithoutTop(c));
        ReturnStackKept(d, e, k + 4 + Slots(t), fuel, WithoutTop(c));
      }
    case Loop(b) =>
      ReturnStackKept(d, b, k, fuel, c);
      var first := Eval(d, b, k, fuel, c);
      if first.Done? && first.core.ds != [] && !Truth(first.core) && fuel > 0 {
        ReturnStackKept(d, p, k, fuel - 1, WithoutTop(first.core));
      }
    case _ => AtomKeepsReturnStack(d, p, k, c);
  }

  /** So a word without >R and R> whose body has an answer returns to the last cell of
      the return stack it was started with, and aborts if and only if that was empty. */
  lemma WordReturns(d: Dialect, mem: Memory, p: Prog, k: int, c: Core, c': Core) returns (n: nat)
    requires Loaded(d, mem, p, k, c) && Means(d, p, k, c, c') && !Mentions(p, ToR) && !Mentions(p, FromR)
    requires InSpi(k + Slots(p), 1) && Matches(mem.ext, k + Slots(p), [Value(XT_EXIT)])
    ensures var o := Steps(d, mem, n, c, Addr(k));
            && o.At? && (o.core.abort <==> c.rs == [])
            && (c.rs == [] ==> o == At(Abort(c'), 0))
            && (c.rs != [] ==> o == At(c'.(rs := c.rs[..|c.rs| - 1]), c.rs[|c.rs| - 1]))
  {
    hide Eval, Code, Matches, Steps;
    n := BodyThenExit(d, mem, p, k, c, c');
    var fuel: nat :| Eval(d, p, k, fuel, c) == Done(c');
    ReturnStackKept(d, p, k, fuel, c);
  }

  /** The whole execution of such a word, started at its first cell with no return address
      or with 0 for one: the loop ends there, whatever more fuel it is given, and it never
      crashes. */
  lemma WordEnds(d: Dialect, mem: Memory, p: Prog, k: int, c: Core, c': Core) returns (run: seq<Point>)
    requires Loaded(d, mem, p, k, c) && Means(d, p, k, c, c') && !Mentions(p, ToR) && !Mentions(p, FromR)
    requires InSpi(k + Slots(p), 1) && Matches(mem.ext, k + Slots(p), [Value(XT_EXIT)])
    requires c.rs == [] || c.rs[|c.rs| - 1] == 0
    ensures Execution(d, mem, run) && run[0] == Point(c, Addr(k))
    ensures var last := if c.rs == [] then Core([], [], Repl, true) else c'.(rs := c.rs[..|c.rs| - 1]);
            && run[|run| - 1] == Point(last, 0)
            && forall fuel: nat ::
                 var o := Steps(d, mem, fuel, c, Addr(k));
                 o.At? && (fuel >= |run| - 1 ==> o == At(last, 0))
  {
    hide Eval, Code, Matches, Steps, Execution;
    var n := WordReturns(d, mem, p, k, c, c');
    var last := Steps(d, mem, n, c, Addr(k)).core;
    run := ExecutionOf(d, mem, n, c, Addr(k), last);
    forall fuel: nat
      ensures var o := Steps(d, mem, fuel, c, Addr(k)); o.At? && (fuel >= |run| - 1 ==> o == At(last, 0))
    {
      ExecutionsEnd(d, mem, c, Addr(k), fuel);
    }
  }

  // ---- what a comparison decides --------------------------------------------

  /** a b op IF x THEN */
  function Conditional(op: Prim, a: u32, b: u32, x: Prog): (p: Prog)
    ensures Slots(p) == 7 + Slots(x) && TextsFit(p) == TextsFit(x)
  {
    var test := Seq(Call(op), IfThen(x));
    assert Slots(test) == 3 + Slots(x) && TextsFit(test) == TextsFit(x);
    assert Slots(Seq(Lit(b), test)) == 5 + Slots(x) && TextsFit(Seq(Lit(b), test)) == TextsFit(x);
    Seq(Lit(a), Seq(Lit(b), test))
  }

  lemma ConditionalMeans(d: Dialect, op: Prim, a: u32, b: u32, x: Prog, k: int, fuel: nat, c: Core)
    requires Runnable(c) && IsComparison(op) && |c.ds| + 2 <= STACK_CELLS
    requires TextsFit(x) && InSpi(k, Slots(Conditional(op, a, b, x)))
    ensures Eval(d, Conditional(op, a, b, x), k, fuel, c)
         == if Compares(op, a, b) then Eval(d, x, k + 7, fuel, c) else if d == AsWritten then Faulted else Done(c)
  {
    hide Eval, Compares, Runnable, Slots, TextsFit, InSpi;
    ConditionalParts(op, a, b, x, k);
    var test := Seq(Call(op), IfThen(x));
    var c1 := c.(ds := c.ds + [a]);
    LitFirst(d, a, Seq(Lit(b), test), k, fuel, c);
    LitFirst(d, b, test, k + 2, fuel, c1);
    TestMeans(d, op, a, b, x, k + 4, fuel, c, c1.(ds := c1.ds + [b]));
  }

  lemma ConditionalParts(op: Prim, a: u32, b: u32, x: Prog, k: int)
    requires TextsFit(x) && InSpi(k, Slots(Conditional(op, a, b, x)))
    ensures var test := Seq(Call(op), IfThen(x));
            && Conditional(op, a, b, x) == Seq(Lit(a), Seq(Lit(b), test))
            && TextsFit(Seq(Lit(b), test)) && InSpi(k, 2 + Slots(Seq(Lit(b), test)))
            && TextsFit(test) && InSpi(k + 2, 2 + Slots(test)) && InSpi(k + 4, 3 + Slots(x)) && InSpi(k + 7, Slots(x))
  {
    var test := Seq(Call(op), IfThen(x));
    assert Slots(IfThen(x)) == 2 + Slots(x) && TextsFit(IfThen(x));
    assert Slots(test) == 3 + Slots(x) && TextsFit(test);
    assert Slots(Seq(Lit(b), test)) == 5 + Slots(x) && TextsFit(Seq(Lit(b), test));
  }

  lemma LitFirst(d: Dialect, v: u32, rest: Prog, k: int, fuel: nat, c: Core)
    requires Runnable(c) && |c.ds| < STACK_CELLS && TextsFit(rest) && InSpi(k, 2 + Slots(rest))
    ensures var c1 := c.(ds := c.ds + [v]);
            Runnable(c1) && Eval(d, Seq(Lit(v), rest), k, fuel, c) == Eval(d, rest, k + 2, fuel, c1)
  {
    assert EvalAtom(d, Lit(v), k, c) == Done(c.(ds := c.ds + [v]));
  }

  lemma TestMeans(d: Dialect, op: Prim, a: u32, b: u32, x: Prog, k: int, fuel: nat, c: Core, c2: Core)
    requires Runnable(c) && IsComparison(op) && |c.ds| + 2 <= STACK_CELLS && c2 == c.(ds := c.ds + [a] + [b])
    requires TextsFit(x) && InSpi(k, 3 + Slots(x))
    ensures Runnable(c2) && Eval(d, Seq(Call(op), IfThen(x)), k, fuel, c2)
                         == if Compares(op, a, b) then Eval(d, x, k + 3, fuel, c)
                            else if d == AsWritten then Faulted else Done(c)
  {
    hide Eval, EvalAtom, Runnable, Compares, InSpi, Slots, TextsFit;
    var flag: u32 := if Compares(op, a, b) then 0xFFFF_FFFF else 0;
    TestParts(op, x, k);
    ComparisonRuns(d, op, a, b, k, c, c2, c.(ds := c.ds + [flag]));
    CallFirst(d, op, IfThen(x), k, fuel, c2, c.(ds := c.ds + [flag]));
    FlagDecides(d, x, k + 1, fuel, c, flag);
  }

  lemma TestParts(op: Prim, x: Prog, k: int)
    requires TextsFit(x) && InSpi(k, 3 + Slots(x))
    ensures TextsFit(IfThen(x)) && InSpi(k, 1 + Slots(IfThen(x))) && InSpi(k, 1) && InSpi(k + 1, 2 + Slots(x))
    ensures TextsFit(Seq(Call(op), IfThen(x))) && InSpi(k, Slots(Seq(Call(op), IfThen(x)))) && InSpi(k + 3, Slots(x))
    ensures TextsFit(Call(op)) && InSpi(k, Slots(Call(op)))
  {
    assert Slots(IfThen(x)) == 2 + Slots(x) && TextsFit(IfThen(x));
  }

  lemma CallFirst(d: Dialect, op: Prim, rest: Prog, k: int, fuel: nat, c: Core, c1: Core)
    requires Runnable(c) && TextsFit(rest) && InSpi(k, 1 + Slots(rest)) && EvalAtom(d, Call(op), k, c) == Done(c1)
    ensures Runnable(c1) && Eval(d, Seq(Call(op), rest), k, fuel, c) == Eval(d, rest, k + 1, fuel, c1)
  {
    hide EvalAtom, Runnable;
  }

  /** IF x THEN on a flag. */
  lemma FlagDecides(d: Dialect, x: Prog, k: int, fuel: nat, c: Core, flag: u32)
    requires Runnable(c) && |c.ds| < STACK_CELLS && TextsFit(x) && InSpi(k, 2 + Slots(x))
    ensures Eval(d, IfThen(x), k, fuel, c.(ds := c.ds + [flag]))
         == if flag != 0 then Eval(d, x, k + 2, fuel, c) else if d == AsWritten then Faulted else Done(c)
  {
    assert (c.ds + [flag])[..|c.ds|] == c.ds;
  }

  lemma ComparisonRuns(d: Dialect, op: Prim, a: u32, b: u32, k: int, c: Core, c2: Core, c3: Core)
    requires Runnable(c) && IsComparison(op) && |c.ds| + 2 <= STACK_CELLS && InSpi(k, 1)
    requires c2 == c.(ds := c.ds + [a] + [b])
    requires c3 == c.(ds := c.ds + [if Compares(op, a, b) then 0xFFFF_FFFF else 0])
    ensures Runnable(c2) && EvalAtom(d, Call(op), k, c2) == Done(c3)
  {
    assert c2.ds[..|c2.ds| - 2] == c.ds;
    ComparisonWords(op, c2, a, b);
    PrimMeaning(op, c2);
    hide ApplyPrim, Effect, Compares;
  }

  /** Compiled and run, a b op IF x THEN takes x exactly when the comparison holds, for
      =, <>, < and >. Otherwise the loop goes on behind THEN, or as written crashes. */
  lemma ComparisonDecides(d: Dialect, op: Prim, a: u32, b: u32, x: Prog, m: Machine, k: int, c: Core)
    returns (m': Machine)
    requires IsComparison(op) && Ready(Conditional(op, a, b, x), m, k) && NestingFits(Conditional(op, a, b, x), m.core)
    requires Runnable(c) && |c.ds| + 2 <= STACK_CELLS
    ensures var p := Conditional(op, a, b, x);
            && (forall w | w in Text(p) :: Parsed(w)) && Interpret(d, Text(p), m) == Success(m') && m'.mem.Valid()
            && (Compares(op, a, b) ==>
                  forall c' :: Reaches(d, m'.mem, p, k, c, c') <==> Means(d, x, k + 7, c, c'))
            && (!Compares(op, a, b) && d == Repaired ==> forall c' :: Reaches(d, m'.mem, p, k, c, c') <==> c' == c)
            && (!Compares(op, a, b) && d == AsWritten ==> Crashes(d, m'.mem, k, c))
  {
    hide Eval, Code, Matches, Text, Interpret, Reaches, Means, OnlyIn, Runnable, Compares, Crashes;
    var p := Conditional(op, a, b, x);
    m' := CompileText(d, p, m, k);
    forall c'
      ensures Reaches(d, m'.mem, p, k, c, c') <==>
              if Compares(op, a, b) then Means(d, x, k + 7, c, c') else d == Repaired && c' == c
    {
      FetchLoopCorrect(d, m'.mem, p, k, c, c');
      ConditionalMeaning(d, op, a, b, x, k, c, c');
    }
    FetchLoopOutcomes(d, m'.mem, p, k, c);
    ConditionalMeans(d, op, a, b, x, k, 0, c);
  }

  lemma ConditionalMeaning(d: Dialect, op: Prim, a: u32, b: u32, x: Prog, k: int, c: Core, c': Core)
    requires Runnable(c) && IsComparison(op) && |c.ds| + 2 <= STACK_CELLS
    requires TextsFit(x) && InSpi(k, Slots(Conditional(op, a, b, x)))
    ensures Means(d, Conditional(op, a, b, x), k, c, c') <==>
            if Compares(op, a, b) then Means(d, x, k + 7, c, c') else d == Repaired && c' == c
  {
    hide Eval, Means, Runnable, Compares, Conditional, Slots, TextsFit;
    if Means(d, Conditional(op, a, b, x), k, c, c') {
      ConditionalForth(d, op, a, b, x, k, c, c');
    }
    var decided := if Compares(op, a, b) then Means(d, x, k + 7, c, c') else d == Repaired && c' == c;
    if decided {
      ConditionalBack(d, op, a, b, x, k, c, c');
    }
  }

  lemma ConditionalForth(d: Dialect, op: Prim, a: u32, b: u32, x: Prog, k: int, c: Core, c': Core)
    requires Runnable(c) && IsComparison(op) && |c.ds| + 2 <= STACK_CELLS
    requires TextsFit(x) && InSpi(k, Slots(Conditional(op, a, b, x))) && Means(d, Conditional(op, a, b, x), k, c, c')
    ensures if Compares(op, a, b) then Means(d, x, k + 7, c, c') else d == Repaired && c' == c
  {
    hide Eval, Runnable, Compares, Conditional, Slots, TextsFit;
    var fuel: nat :| Eval(d, Conditional(op, a, b, x), k, fuel, c) == Done(c');
    ConditionalMeans(d, op, a, b, x, k, fuel, c);
  }

  lemma ConditionalBack(d: Dialect, op: Prim, a: u32, b: u32, x: Prog, k: int, c: Core, c': Core)
    requires Runnable(c) && IsComparison(op) && |c.ds| + 2 <= STACK_CELLS
    requires TextsFit(x) && InSpi(k, Slots(Conditional(op, a, b, x)))
    requires if Compares(op, a, b) then Means(d, x, k + 7, c, c') else d == Repaired && c' == c
    ensures Means(d, Conditional(op, a, b, x), k, c, c')
  {
    hide Eval, Runnable, Compares, Conditional, Slots, TextsFit;
    var fuel: nat := 0;
    if Compares(op, a, b) {
      fuel :| Eval(d, x, k + 7, fuel, c) == Done(c');
    }
    ConditionalMeans(d, op, a, b, x, k, fuel, c);
  }

  // ---- IF as written --------------------------------------------------------

  /** Every IF met on the way finds a true flag: what the code as written needs. */
  predicate IfsTaken(p: Prog, k: int, fuel: nat, c: Core)
    requires Runnable(c) && TextsFit(p) && InSpi(k, Slots(p))
    decreases fuel, p
  {
    match p
    case Seq(a, b) =>
      && IfsTaken(a, k, fuel, c)
      && var first := Eval(Repaired, a, k, fuel, c);
         first.Done? ==> IfsTaken(b, k + Slots(a), fuel, first.core)
    case IfThen(t) => c.ds != [] ==> Truth(c) && IfsTaken(t, k + 2, fuel, WithoutTop(c))
    case IfElse(t, e) => c.ds != [] ==> Truth(c) && IfsTaken(t, k + 2, fuel, WithoutTop(c))
    case Loop(b) =>
      && IfsTaken(b, k, fuel, c)
      && var first := Eval(Repaired, b, k, fuel, c);
         (first.Done? && first.core.ds != [] && !Truth(first.core) && fuel > 0) ==>
           IfsTaken(p, k, fuel - 1, WithoutTop(first.core))
    case _ => true
  }

  lemma AtomAsCompiled(p: Prog, k: int, c: Core)
    requires Runnable(c) && TextsFit(p) && InSpi(k, Slots(p))
    requires p.Nothing? || p.Lit? || p.Call? || p.Str?
    ensures var q := AsCompiled(AsWritten, p);
            && TextsFit(q) && InSpi(k, Slots(q)) && EvalAtom(AsWritten, p, k, c) == EvalAtom(Repaired, q, k, c)
  {
    hide Effect, Enabled, Runnable, Pieces;
  }

  /** The meaning as written is the repaired meaning, read with the words its tokens run,
      as long as no IF on the way meets a false flag, and a fault otherwise. */
  lemma {:induction false} AsWrittenExactly(p: Prog, k: int, fuel: nat, c: Core)
    requires Runnable(c) && TextsFit(p) && InSpi(k, Slots(p))
    ensures var q := AsCompiled(AsWritten, p);
            && TextsFit(q) && Slots(q) == Slots(p)
            && (IfsTaken(q, k, fuel, c) ==> Eval(AsWritten, p, k, fuel, c) == Eval(Repaired, q, k, fuel, c))
            && (!IfsTaken(q, k, fuel, c) ==> Eval(AsWritten, p, k, fuel, c) == Faulted)
    decreases fuel, p
  {
    hide EvalAtom, Runnable, Pieces;
    AsCompiledFits(AsWritten, p);
    match p
    case Seq(a, b) =>
      AsCompiledFits(AsWritten, a);
      AsWrittenExactly(a, k, fuel, c);
      var first := Eval(Repaired, AsCompiled(AsWritten, a), k, fuel, c);
      if first.Done? {
        AsWrittenExactly(b, k + Slots(a), fuel, first.core);
      }
    case IfThen(t) =>
      if c.ds != [] && Truth(c) {
        AsWrittenExactly(t, k + 2, fuel, WithoutTop(c));
      }
    case IfElse(t, e) =>
      AsCompiledFits(AsWritten, t);
      if c.ds != [] && Truth(c) {
        AsWrittenExactly(t, k + 2, fuel, WithoutTop(c));
      }
    case Loop(b) =>
      AsCompiledFits(AsWritten, b);
      AsWrittenExactly(b, k, fuel, c);
      var first := Eval(Repaired, AsCompiled(AsWritten, b), k, fuel, c);
      if first.Done? && first.core.ds != [] && !Truth(first.core) && fuel > 0 {
        AsWrittenExactly(p, k, fuel - 1, WithoutTop(first.core));
      }
    case _ => AtomAsCompiled(p, k, c);
  }

  /** Some fuel for which the repaired meaning, read with the words the tokens run, is c'
      and meets no false flag at an IF. */
  ghost predicate IntendedAnswer(p: Prog, k: int, c: Core, c': Core)
    requires Runnable(c) && TextsFit(AsCompiled(AsWritten, p)) && InSpi(k, Slots(AsCompiled(AsWritten, p)))
  {
    var q := AsCompiled(AsWritten, p);
    exists fuel: nat :: IfsTaken(q, k, fuel, c) && Eval(Repaired, q, k, fuel, c) == Done(c')
  }

  /** The fetch loop as written reaches the end of the code with c' if and only if c' is
      the intended answer and no IF on the way meets a false flag. */
  lemma LoopAsWritten(mem: Memory, p: Prog, k: int, c: Core, c': Core)
    requires Loaded(AsWritten, mem, p, k, c)
    ensures TextsFit(AsCompiled(AsWritten, p)) && InSpi(k, Slots(AsCompiled(AsWritten, p)))
    ensures Reaches(AsWritten, mem, p, k, c, c') <==> IntendedAnswer(p, k, c, c')
  {
    hide Eval, Code, Matches, IfsTaken, Reaches;
    var q := AsCompiled(AsWritten, p);
    AsCompiledFits(AsWritten, p);
    FetchLoopCorrect(AsWritten, mem, p, k, c, c');
    if Means(AsWritten, p, k, c, c') {
      var fuel: nat :| Eval(AsWritten, p, k, fuel, c) == Done(c');
      AsWrittenExactly(p, k, fuel, c);
    }
    if IntendedAnswer(p, k, c, c') {
      var fuel: nat :| IfsTaken(q, k, fuel, c) && Eval(Repaired, q, k, fuel, c) == Done(c');
      AsWrittenExactly(p, k, fuel, c);
    }
  }

  /** And a false flag at any IF on the way, however deep, ends the process. */
  lemma FalseFlagCrashes(mem: Memory, p: Prog, k: int, fuel: nat, c: Core)
    requires Loaded(AsWritten, mem, p, k, c)
    ensures var q := AsCompiled(AsWritten, p);
            && TextsFit(q) && InSpi(k, Slots(q))
            && (!IfsTaken(q, k, fuel, c) ==> Crashes(AsWritten, mem, k, c))
  {
    hide Eval, Code, Matches, IfsTaken, Crashes;
    AsWrittenExactly(p, k, fuel, c);
    FetchLoopOutcomes(AsWritten, mem, p, k, c);
  }
}
