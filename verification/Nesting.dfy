/** When compiling a well-nested text succeeds, and all that it then changes. */
module Nesting {
  import opened Words
  import opened Bus
  import opened Stacks
  import opened Threaded
  import opened Compiler

  /** Interpreting the words of p in the middle of a definition leaves both stacks as
      they were, moves the frontier by exactly the size of the code, writes the code
      of p with every branch operand patched, and changes no other byte. */
  lemma CompileText(d: Dialect, p: Prog, m: Machine, k: int) returns (m': Machine)
    requires Ready(p, m, k) && NestingFits(p, m.core)
    ensures (forall w | w in Text(p) :: Parsed(w)) && Interpret(d, Text(p), m) == Success(m')
    ensures m'.Valid() && m'.core == m.core && m'.latest == m.latest
    ensures m'.here == m.here + Size(p) && m'.here == Addr(k + Slots(p))
    ensures m'.mem.fast == m.mem.fast && OnlyIn(m.mem.ext, m'.mem.ext, k, k + Slots(p))
    ensures |Code(d, k, p)| == Slots(p) && Matches(m'.mem.ext, k, Code(d, k, p))
  {
    hide Interprets, Code, Interpret, Text, WriteCode, OnlyIn, Matches;
    var code := CompileEmits(d, p, m, k);
    m' := Written(m, k, code);
    InterpretsIsInterpret(d, Text(p), m, m');
    WriteMeaning(m.mem.ext, k, code);
  }

  /** A text that does not compile: the bus faults on the way, or the machine aborts. */
  ghost predicate Rejected(d: Dialect, ws: seq<Word>, m: Machine)
    requires m.Valid() && forall w | w in ws :: Parsed(w)
  {
    var r := Interpret(d, ws, m);
    r.Failure? || r.value.core.abort
  }

  lemma WordKeepsAbort(d: Dialect, w: Word, m: Machine)
    requires m.Valid() && Parsed(w) && m.core.abort
    ensures var r := InterpretWord(d, w, m); r.Success? ==> r.value.core.abort
  {
    match w
    case WPrim(p) => PrimAborted(p, m.core);
    case _ =>
  }

  lemma {:induction false} AbortedIsRejected(d: Dialect, ws: seq<Word>, m: Machine)
    requires m.Valid() && (forall w | w in ws :: Parsed(w)) && m.core.abort
    ensures Rejected(d, ws, m)
    decreases |ws|
  {
    if ws == [] {
    } else {
      WordKeepsAbort(d, ws[0], m);
      hide InterpretWord;
      var first := InterpretWord(d, ws[0], m);
      if first.Success? {
        AbortedIsRejected(d, ws[1..], first.value);
      }
    }
  }

  lemma RejectedHere(d: Dialect, a: seq<Word>, b: seq<Word>, m: Machine)
    requires m.Valid() && (forall w | w in a :: Parsed(w)) && (forall w | w in b :: Parsed(w))
    requires Rejected(d, a, m)
    ensures (forall w | w in a + b :: Parsed(w)) && Rejected(d, a + b, m)
  {
    hide Interpret;
    InterpretAppend(d, a, b, m);
    var first := Interpret(d, a, m);
    if first.Success? {
      AbortedIsRejected(d, b, first.value);
    }
  }

  lemma RejectedLater(d: Dialect, a: seq<Word>, b: seq<Word>, m: Machine, m1: Machine)
    requires m.Valid() && (forall w | w in a :: Parsed(w)) && (forall w | w in b :: Parsed(w))
    requires Interpret(d, a, m) == Success(m1) && Rejected(d, b, m1)
    ensures (forall w | w in a + b :: Parsed(w)) && Rejected(d, a + b, m)
  {
    hide Interpret;
    InterpretAppend(d, a, b, m);
  }

  lemma RejectedWord(d: Dialect, w: Word, m: Machine)
    requires m.Valid() && Parsed(w)
    requires InterpretWord(d, w, m).Success? ==> InterpretWord(d, w, m).value.core.abort
    ensures Rejected(d, [w], m)
  {
    hide InterpretWord;
    assert [w][1..] == [];
    var r := InterpretWord(d, w, m);
    if r.Success? {
      assert Interpret(d, [], r.value) == r;
    }
  }

  lemma {:induction false} TooDeep(d: Dialect, p: Prog, m: Machine, k: int)
    requires Ready(p, m, k) && !NestingFits(p, m.core)
    ensures (forall w | w in Text(p) :: Parsed(w)) && Rejected(d, Text(p), m)
    decreases p, 1
  {
    match p
    case Seq(a, b) => TooDeepSeq(d, a, b, m, k);
    case IfThen(t) =>
      TooDeepIf(d, p, t, [WThen], m, k);
    case IfElse(t, e) => TooDeepIfElse(d, t, e, m, k);
    case Loop(b) => TooDeepLoop(d, b, m, k);
    case _ =>
  }

  lemma {:induction false} TooDeepSeq(d: Dialect, a: Prog, b: Prog, m: Machine, k: int)
    requires Ready(Seq(a, b), m, k) && !NestingFits(Seq(a, b), m.core)
    ensures (forall w | w in Text(a) + Text(b) :: Parsed(w)) && Rejected(d, Text(a) + Text(b), m)
    decreases Seq(a, b), 0
  {
    hide Interpret, Rejected, Code, Matches, OnlyIn, Text;
    TextParsed(a);
    TextParsed(b);
    if NestingFits(a, m.core) {
      var m1 := CompileText(d, a, m, k);
      TooDeep(d, b, m1, k + Slots(a));
      RejectedLater(d, Text(a), Text(b), m, m1);
    } else {
      TooDeep(d, a, m, k);
      RejectedHere(d, Text(a), Text(b), m);
    }
  }

  /** IF followed by a branch that is too deep, or by anything when the return stack
      is full. */
  lemma {:induction false} TooDeepIf(d: Dialect, p: Prog, t: Prog, rest: seq<Word>, m: Machine, k: int)
    requires Ready(p, m, k) && TextsFit(t) && 2 + Slots(t) <= Slots(p)
    requires forall w | w in rest :: Parsed(w)
    requires |m.core.rs| < STACK_CELLS ==> !NestingFits(t, m.core.(rs := m.core.rs + [Addr(k + 1)]))
    ensures var ws := [WIf] + Text(t) + rest; (forall w | w in ws :: Parsed(w)) && Rejected(d, ws, m)
    decreases t, 2
  {
    hide Interpret, Rejected, Text, If, WriteCode;
    TextParsed(t);
    IfWrites(m, k);
    var m1 := InBranch(m, k, IF_HEAD);
    if |m.core.rs| < STACK_CELLS {
      TooDeep(d, t, m1, k + 2);
      OneWord(d, WIf, m, m1);
      RejectedLater(d, [WIf], Text(t), m, m1);
      RejectedHere(d, [WIf] + Text(t), rest, m);
    } else {
      RejectedWord(d, WIf, m);
      RejectedHere(d, [WIf], Text(t) + rest, m);
      assert [WIf] + (Text(t) + rest) == [WIf] + Text(t) + rest;
    }
  }

  lemma OneWord(d: Dialect, w: Word, m: Machine, m1: Machine)
    requires m.Valid() && Parsed(w) && InterpretWord(d, w, m) == Success(m1)
    ensures (forall v | v in [w] :: Parsed(v)) && Interpret(d, [w], m) == Success(m1)
  {
    hide InterpretWord;
    assert [w][1..] == [];
  }

  lemma {:induction false} TooDeepIfElse(d: Dialect, t: Prog, e: Prog, m: Machine, k: int)
    requires Ready(IfElse(t, e), m, k) && !NestingFits(IfElse(t, e), m.core)
    ensures var ws := [WIf] + Text(t) + [WElse] + Text(e) + [WThen];
            (forall w | w in ws :: Parsed(w)) && Rejected(d, ws, m)
    decreases IfElse(t, e), 0
  {
    hide Interpret, Rejected, Text, Code, Interprets, WriteCode, ElseCode, Then, Else, If, Parsed;
    TextParsed(t);
    TextParsed(e);
    OtherWordsParsed();
    if |m.core.rs| < STACK_CELLS && NestingFits(IfThen(t), m.core) {
      var yes := CompileYes(d, t, e, m, k);
      var m3 := InBranch(m, k, ElseCode(k, yes) + ELSE_HEAD);
      InterpretsIsInterpret(d, [WIf] + Text(t) + [WElse], m, m3);
      TooDeep(d, e, m3, k + 4 + Slots(t));
      RejectedLater(d, [WIf] + Text(t) + [WElse], Text(e), m, m3);
      RejectedHere(d, [WIf] + Text(t) + [WElse] + Text(e), [WThen], m);
    } else {
      TooDeepIf(d, IfElse(t, e), t, [WElse] + Text(e) + [WThen], m, k);
      assert [WIf] + Text(t) + ([WElse] + Text(e) + [WThen]) == [WIf] + Text(t) + [WElse] + Text(e) + [WThen];
    }
  }

  lemma OtherWordsParsed()
    ensures Parsed(WIf) && Parsed(WElse) && Parsed(WThen) && Parsed(WBegin) && Parsed(WUntil)
  {
  }

  lemma {:induction false} TooDeepLoop(d: Dialect, b: Prog, m: Machine, k: int)
    requires Ready(Loop(b), m, k) && !NestingFits(Loop(b), m.core)
    ensures var ws := [WBegin] + Text(b) + [WUntil]; (forall w | w in ws :: Parsed(w)) && Rejected(d, ws, m)
    decreases Loop(b), 0
  {
    hide Interpret, Rejected, Text, Until;
    TextParsed(b);
    var m1 := Begin(m);
    OneWord(d, WBegin, m, m1);
    if |m.core.ds| < STACK_CELLS {
      TooDeep(d, b, m1, k);
      RejectedLater(d, [WBegin], Text(b), m, m1);
      RejectedHere(d, [WBegin] + Text(b), [WUntil], m);
    } else {
      AbortedIsRejected(d, Text(b) + [WUntil], m1);
      RejectedLater(d, [WBegin], Text(b) + [WUntil], m, m1);
      assert [WBegin] + (Text(b) + [WUntil]) == [WBegin] + Text(b) + [WUntil];
    }
  }

  /** With room for the code, a well-nested text compiles if and only if its nesting
      fits the free cells of the two stacks. */
  lemma CompilesExactly(d: Dialect, p: Prog, m: Machine, k: int)
    requires Ready(p, m, k)
    ensures forall w | w in Text(p) :: Parsed(w)
    ensures !Rejected(d, Text(p), m) <==> NestingFits(p, m.core)
  {
    hide Interpret, Text, Code, Matches, OnlyIn;
    if NestingFits(p, m.core) {
      var m' := CompileText(d, p, m, k);
    } else {
      TooDeep(d, p, m, k);
    }
  }
}
