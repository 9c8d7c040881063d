/** The threaded-code compiler and inner interpreter of forth_dict.c on values:
    compile words that write cells and patch them, and the fetch step that runs
    the result. */
module Threaded {
  import opened Words
  import opened Bus
  import opened Stacks

  /** AsWritten is the source. Repaired differs in three places: 0BRANCH adds its
      operand to the ip as BRANCH does (lines 843-845), UNTIL emits the offset
      formula of AGAIN (line 1105), and the table entry of RSHIFT (line 94)
      carries XT_RSHIFT. */
  datatype Dialect = AsWritten | Repaired

  const XT_LIT: u32 := 1
  const XT_BRANCH: u32 := 2
  const XT_0BRANCH: u32 := 3
  const XT_ABORT: u32 := 4
  const XT_EXIT: u32 := 5
  const XT_S_QUOTE: u32 := 43

  /** The last token of the enumeration, F-CLOSE. */
  const XT_LAST: u32 := 71

  const STRING_BUFFER_SIZE: int := 256

  /** The xt_id of a word's table entry. */
  function XtOf(d: Dialect, p: Prim): u32 {
    match p
    case Mul => 12
    case Sub => 13
    case Add => 14
    case And => 15
    case Or => 16
    case Xor => 17
    case Invert => 18
    case Lshift => 19
    case Rshift => if d == AsWritten then 19 else 20
    case Arshift => 21
    case Drop => 22
    case Over => 23
    case Swap => 24
    case Dup => 25
    case ZeroEqual => 26
    case Equal => 27
    case NotEqual => 28
    case Less => 29
    case Greater => 30
    case ToR => 60
    case FromR => 61
  }

  /** The lookup from token to handler, which is not in the repository; taken to be
      the inverse of the enumeration. */
  function PrimOf(xt: u32): Option<Prim> {
    match xt
    case 12 => Some(Mul)
    case 13 => Some(Sub)
    case 14 => Some(Add)
    case 15 => Some(And)
    case 16 => Some(Or)
    case 17 => Some(Xor)
    case 18 => Some(Invert)
    case 19 => Some(Lshift)
    case 20 => Some(Rshift)
    case 21 => Some(Arshift)
    case 22 => Some(Drop)
    case 23 => Some(Over)
    case 24 => Some(Swap)
    case 25 => Some(Dup)
    case 26 => Some(ZeroEqual)
    case 27 => Some(Equal)
    case 28 => Some(NotEqual)
    case 29 => Some(Less)
    case 30 => Some(Greater)
    case 60 => Some(ToR)
    case 61 => Some(FromR)
    case _ => None
  }

  /** The word that runs where p was compiled. */
  function CompiledAs(d: Dialect, p: Prim): Prim {
    if d == AsWritten && p == Rshift then Lshift else p
  }

  /** No handler stands behind the token: it is 0 or behind the enumeration. */
  predicate NoHandler(xt: u32) {
    xt == 0 || xt > XT_LAST
  }

  /** The words whose tokens follow each other from 12 on. */
  const ENUMERATED: seq<Prim> :=
    [Mul, Sub, Add, And, Or, Xor, Invert, Lshift, Rshift, Arshift, Drop, Over, Swap, Dup, ZeroEqual,
     Equal, NotEqual, Less, Greater]

  lemma TokensInOrder()
    ensures forall i: nat | i < |ENUMERATED| :: XtOf(Repaired, ENUMERATED[i]) == 12 + i
    ensures XtOf(Repaired, ToR) == 60 && XtOf(Repaired, FromR) == 61
  {
  }

  lemma TokensInvert(d: Dialect, p: Prim)
    ensures PrimOf(XtOf(d, p)) == Some(CompiledAs(d, p))
    ensures XtOf(d, p) !in {XT_LIT, XT_BRANCH, XT_0BRANCH, XT_ABORT, XT_EXIT, XT_S_QUOTE} && !NoHandler(XtOf(d, p))
  {
  }

  /** Everything a compile word can read or change. */
  datatype Machine = Machine(core: Core, mem: Memory, ip: u32, here: u32, latest: u32) {
    ghost predicate Valid() {
      core.Valid() && mem.Valid()
    }
  }

  // ---- the words the text interpreter dispatches ----------------------------

  datatype Word =
    | WNumber(value: u32)
    | WPrim(prim: Prim)
    | WString(text: seq<u8>)
    | WBegin | WUntil | WIf | WElse | WThen

  /** One cell at the compilation frontier. */
  function Emit(m: Machine, v: u32): (r: Result<Machine>)
    requires m.Valid()
    ensures r.Success? ==> r.value.Valid()
  {
    var mem :- Store32(m.mem, m.here, v);
    Success(m.(mem := mem, here := Wrap(m.here + 4)))
  }

  function Begin(m: Machine): (r: Machine)
    requires m.Valid()
    ensures r.Valid()
  {
    if m.core.mode != Compile then m.(core := Abort(m.core))
    else m.(core := Push(m.core, m.here))
  }

  function Until(d: Dialect, m: Machine): (r: Result<Machine>)
    requires m.Valid()
    ensures r.Success? ==> r.value.Valid()
  {
    if m.core.mode != Compile then Success(m.(core := Abort(m.core)))
    else
      var (core, target) := Pop(m.core);
      var m1 :- Emit(m.(core := core), XT_0BRANCH);
      Emit(m1, if d == AsWritten then target else Wrap(target - m1.here))
  }

  function If(m: Machine): (r: Result<Machine>)
    requires m.Valid()
    ensures r.Success? ==> r.value.Valid()
  {
    var m1 :- Emit(m, XT_0BRANCH);
    var m2 :- Emit(m1, 0);
    Success(m2.(core := RPush(m.core, m1.here)))
  }

  function Then(m: Machine): (r: Result<Machine>)
    requires m.Valid()
    ensures r.Success? ==> r.value.Valid()
  {
    var (core, patch) := RPop(m.core);
    var mem :- Store32(m.mem, patch, Wrap(m.here - patch));
    Success(m.(core := core, mem := mem))
  }

  function Else(m: Machine): (r: Result<Machine>)
    requires m.Valid()
    ensures r.Success? ==> r.value.Valid()
  {
    var m1 :- Emit(m, XT_BRANCH);
    var m2 :- Emit(m1, 0);
    var (core, patch) := RPop(m2.core);
    var mem :- Store32(m2.mem, patch, Wrap(m2.here - patch));
    Success(m2.(core := RPush(core, m1.here), mem := mem))
  }

  /** The text behind the token and its length, and the frontier moved past its
      padding. */
  function EmitText(m: Machine, text: seq<u8>): (r: Result<Machine>)
    requires m.Valid() && |text| < STRING_BUFFER_SIZE
    ensures r.Success? ==> r.value.Valid()
  {
    var mem :- RingStore(m.mem, m.here, text);
    Success(m.(mem := mem, here := Wrap(m.here + AlignUp(|text|))))
  }

  /** S" once its text is parsed. */
  function Quote(m: Machine, text: seq<u8>): (r: Result<Machine>)
    requires m.Valid() && |text| < STRING_BUFFER_SIZE
    ensures r.Success? ==> r.value.Valid()
  {
    match m.core.mode
    case Compile =>
      var m1 :- Emit(m, XT_S_QUOTE);
      var m2 :- Emit(m1, |text|);
      EmitText(m2, text)
    case Repl =>
      var buffer := EXT_BASE + EXT_SIZE - STRING_BUFFER_SIZE;
      var mem :- RingStore(m.mem, buffer, text);
      Success(m.(mem := mem, core := Push(Push(m.core, buffer), |text|)))
    case Runtime => Success(m)
  }

  predicate Parsed(w: Word) {
    w.WString? ==> |w.text| < STRING_BUFFER_SIZE
  }

  /** The dispatch rule: an immediate word, or any word in REPL mode, runs; any
      other word becomes a token. */
  function InterpretWord(d: Dialect, w: Word, m: Machine): (r: Result<Machine>)
    requires m.Valid() && Parsed(w)
    ensures r.Success? ==> r.value.Valid()
  {
    match w
    case WNumber(v) =>
      (match m.core.mode
       case Repl => Success(m.(core := Push(m.core, v)))
       case Compile =>
         var m1 :- Emit(m, XT_LIT);
         Emit(m1, v)
       case Runtime => Success(m))
    case WPrim(p) =>
      if m.core.mode == Repl then
        PrimKeepsValid(p, m.core);
        Success(m.(core := ApplyPrim(p, m.core)))
      else Emit(m, XtOf(d, p))
    case WString(text) => Quote(m, text)
    case WBegin => Success(Begin(m))
    case WUntil => Until(d, m)
    case WIf => If(m)
    case WElse => Else(m)
    case WThen => Then(m)
  }

  function Interpret(d: Dialect, ws: seq<Word>, m: Machine): (r: Result<Machine>)
    requires m.Valid() && forall w | w in ws :: Parsed(w)
    ensures r.Success? ==> r.value.Valid()
    decreases |ws|
  {
    if ws == [] then Success(m)
    else
      var m1 :- InterpretWord(d, ws[0], m);
      Interpret(d, ws[1..], m1)
  }

  lemma {:induction false} InterpretAppend(d: Dialect, a: seq<Word>, b: seq<Word>, m: Machine)
    requires m.Valid() && (forall w | w in a :: Parsed(w)) && (forall w | w in b :: Parsed(w))
    ensures Interpret(d, a + b, m)
         == if Interpret(d, a, m).Success? then Interpret(d, b, Interpret(d, a, m).value) else Interpret(d, a, m)
    decreases |a|
  {
    if a == [] {
      assert a + b == b;
    } else {
      assert (a + b)[0] == a[0] && (a + b)[1..] == a[1..] + b;
      var first := InterpretWord(d, a[0], m);
      if first.Success? {
        InterpretAppend(d, a[1..], b, first.value);
      }
    }
  }

  /** The same as a relation: some sequence of machines leads from m to m' word by
      word. */
  ghost predicate Interprets(d: Dialect, ws: seq<Word>, m: Machine, m': Machine) {
    exists run: seq<Machine> :: Trace(d, ws, run) && run[0] == m && run[|ws|] == m'
  }

  ghost predicate Trace(d: Dialect, ws: seq<Word>, run: seq<Machine>) {
    && |run| == |ws| + 1
    && (forall i | 0 <= i < |run| :: run[i].Valid())
    && (forall i | 0 <= i < |ws| :: Parsed(ws[i]) && InterpretWord(d, ws[i], run[i]) == Success(run[i + 1]))
  }

  lemma {:induction false} TraceIsInterpret(d: Dialect, ws: seq<Word>, run: seq<Machine>)
    requires Trace(d, ws, run)
    ensures (forall w | w in ws :: Parsed(w)) && Interpret(d, ws, run[0]) == Success(run[|ws|])
    decreases |ws|
  {
    if ws == [] {
    } else {
      var rest := run[1..];
      assert Trace(d, ws[1..], rest) by {
        forall i | 0 <= i < |ws[1..]|
          ensures Parsed(ws[1..][i]) && InterpretWord(d, ws[1..][i], rest[i]) == Success(rest[i + 1])
        {
          assert ws[1..][i] == ws[i + 1] && rest[i] == run[i + 1] && rest[i + 1] == run[i + 1 + 1];
        }
      }
      TraceIsInterpret(d, ws[1..], rest);
      forall w | w in ws
        ensures Parsed(w)
      {
        var i :| 0 <= i < |ws| && ws[i] == w;
      }
      assert InterpretWord(d, ws[0], run[0]) == Success(run[0 + 1]);
    }
  }

  lemma InterpretsIsInterpret(d: Dialect, ws: seq<Word>, m: Machine, m': Machine)
    requires Interprets(d, ws, m, m')
    ensures m.Valid() && (forall w | w in ws :: Parsed(w)) && Interpret(d, ws, m) == Success(m')
  {
    var run: seq<Machine> :| Trace(d, ws, run) && run[0] == m && run[|ws|] == m';
    TraceIsInterpret(d, ws, run);
  }

  lemma InterpretsNone(d: Dialect, m: Machine)
    requires m.Valid()
    ensures Interprets(d, [], m, m)
  {
    assert Trace(d, [], [m]);
  }

  lemma InterpretsOne(d: Dialect, w: Word, m: Machine, m': Machine)
    requires m.Valid() && m'.Valid() && Parsed(w) && InterpretWord(d, w, m) == Success(m')
    ensures Interprets(d, [w], m, m')
  {
    assert Trace(d, [w], [m, m']);
  }

  lemma InterpretsJoin(d: Dialect, a: seq<Word>, b: seq<Word>, m: Machine, m1: Machine, m2: Machine)
    requires Interprets(d, a, m, m1) && Interprets(d, b, m1, m2)
    ensures Interprets(d, a + b, m, m2)
  {
    hide InterpretWord, Parsed;
    var runA: seq<Machine> :| Trace(d, a, runA) && runA[0] == m && runA[|a|] == m1;
    var runB: seq<Machine> :| Trace(d, b, runB) && runB[0] == m1 && runB[|b|] == m2;
    var run := runA + runB[1..];
    forall i | 0 <= i < |a + b|
      ensures Parsed((a + b)[i]) && InterpretWord(d, (a + b)[i], run[i]) == Success(run[i + 1])
    {
      if i < |a| {
        assert (a + b)[i] == a[i] && run[i] == runA[i] && run[i + 1] == runA[i + 1];
      } else {
        var j := i - |a|;
        assert (a + b)[i] == b[j] && run[i] == runB[j] && run[i + 1] == runB[j + 1];
      }
    }
    assert Trace(d, a + b, run);
  }

  // ---- words where they do not belong ----------------------------------------

  /** BEGIN and UNTIL outside a definition abort: stacks empty, flag set, back in the
      REPL, memory and frontier as they were. */
  lemma LoopWordsOutside(d: Dialect, m: Machine)
    requires m.Valid() && m.core.mode != Compile
    ensures Begin(m) == m.(core := Core([], [], Repl, true))
    ensures Until(d, m) == Success(m.(core := Core([], [], Repl, true)))
  {
  }

  /** THEN and ELSE without an open IF write to address 0, which ends the process. */
  lemma PatchWordsWithoutIf(m: Machine)
    requires m.Valid() && m.core.rs == []
    ensures Then(m) == Failure(Violation(0)) && Else(m).Failure?
  {
  }

  /** UNTIL without an open loop aborts, and still compiles its two cells, which lead to
      address 0. */
  lemma UntilWithoutBegin(m: Machine)
    requires m.Valid() && m.core.mode == Compile && !m.core.abort && m.core.ds == []
    requires m.here % 4 == 0 && InExt(m.here) && InExt(m.here + 4)
    ensures var mem1 := Store32(m.mem, m.here, 3).value;
            var r := Until(AsWritten, m);
            && r.Success? && r.value.core == Core([], [], Repl, true) && r.value.here == Wrap(m.here + 8)
            && Success(r.value.mem) == Store32(mem1, m.here + 4, 0)
  {
    hide Put32;
    WrapIs(m.here + 4, 0);
  }

  /** Whatever sets the abort flag empties both stacks and leaves the REPL mode. */
  lemma WordClears(d: Dialect, w: Word, m: Machine)
    requires m.Valid() && Parsed(w) && Cleared(m.core)
    ensures var r := InterpretWord(d, w, m); r.Success? ==> Cleared(r.value.core)
  {
    hide ApplyPrim, Store32, RingStore;
    if w.WPrim? {
      AbortClears(w.prim, m.core);
    }
  }

  lemma {:induction false} InterpretClears(d: Dialect, ws: seq<Word>, m: Machine)
    requires m.Valid() && (forall w | w in ws :: Parsed(w)) && Cleared(m.core)
    ensures var r := Interpret(d, ws, m); r.Success? ==> Cleared(r.value.core)
    decreases |ws|
  {
    hide InterpretWord, Cleared;
    if ws == [] {
    } else {
      WordClears(d, ws[0], m);
      var first := InterpretWord(d, ws[0], m);
      if first.Success? {
        InterpretClears(d, ws[1..], first.value);
      }
    }
  }

  // ---- the inner interpreter ------------------------------------------------

  /** One turn of the fetch loop, or why there is none: the bus faults and the
      process ends, or the token is a word of the table that this model does not
      cover. */
  datatype Outcome = At(core: Core, ip: u32) | Crash(fault: Fault) | NotModelled

  function Dispatch(d: Dialect, mem: Memory, core: Core, xt: u32, ip: u32): Outcome
    requires mem.Valid()
  {
    if xt == XT_LIT then
      match Load32(mem, ip)
      case Failure(f) => Crash(f)
      case Success(v) => At(Push(core, v), Wrap(ip + 4))
    else if xt == XT_BRANCH then
      match Load32(mem, ip)
      case Failure(f) => Crash(f)
      case Success(offset) => At(core, Wrap(ip + Signed(offset)))
    else if xt == XT_0BRANCH then
      var (core1, flag) := Pop(core);
      match Load32(mem, ip)
      case Failure(f) => Crash(f)
      case Success(operand) =>
        if flag != 0 then At(core1, Wrap(ip + 4))
        else At(core1, if d == AsWritten then operand else Wrap(ip + Signed(operand)))
    else if xt == XT_S_QUOTE then
      if core.mode != Runtime then NotModelled
      else
        match Load32(mem, ip)
        case Failure(f) => Crash(f)
        case Success(len) => At(Push(Push(core, Wrap(ip + 4)), len), Wrap(ip + 4 + AlignUp(len)))
    else if xt == XT_EXIT then
      var (core1, back) := RPop(core);
      At(core1, back)
    else if xt == XT_ABORT || NoHandler(xt) then At(Abort(core), ip)
    else
      match PrimOf(xt)
      case None => NotModelled
      case Some(p) => At(ApplyPrim(p, core), ip)
  }

  function Step(d: Dialect, mem: Memory, core: Core, ip: u32): Outcome
    requires mem.Valid()
  {
    match Load32(mem, ip)
    case Failure(f) => Crash(f)
    case Success(xt) => Dispatch(d, mem, core, xt, Wrap(ip + 4))
  }

  /** At most n turns of the loop, which ends when ip is 0. */
  function Steps(d: Dialect, mem: Memory, n: nat, core: Core, ip: u32): Outcome
    requires mem.Valid()
    decreases n
  {
    if n == 0 || ip == 0 then At(core, ip)
    else
      match Step(d, mem, core, ip)
      case At(core1, ip1) => Steps(d, mem, n - 1, core1, ip1)
      case stop => stop
  }

  lemma {:induction false} StepsAdd(d: Dialect, mem: Memory, n: nat, k: nat, core: Core, ip: u32)
    requires mem.Valid()
    ensures Steps(d, mem, n + k, core, ip)
         == match Steps(d, mem, n, core, ip)
            case At(core1, ip1) => Steps(d, mem, k, core1, ip1)
            case stop => stop
    decreases n
  {
    hide Step;
    if n == 0 || ip == 0 {
    } else {
      var o := Step(d, mem, core, ip);
      if o.At? {
        StepsAdd(d, mem, n - 1, k, o.core, o.ip);
      }
    }
  }

  lemma AbortedStep(d: Dialect, mem: Memory, core: Core, ip: u32)
    requires mem.Valid() && core.abort
    ensures var o := Step(d, mem, core, ip); o.At? ==> o.core == core || o.core == Abort(core)
  {
    match Load32(mem, ip)
    case Failure(_) =>
    case Success(xt) =>
      match PrimOf(xt)
      case None =>
      case Some(p) => PrimAborted(p, core);
  }

  /** The fetch loop never clears the abort flag, and after an abort it touches the
      stacks only to clear them. */
  lemma {:induction false} AbortLatched(d: Dialect, mem: Memory, n: nat, core: Core, ip: u32)
    requires mem.Valid() && core.abort
    ensures var o := Steps(d, mem, n, core, ip); o.At? ==> o.core == core || o.core == Abort(core)
    decreases n
  {
    hide Step;
    if n == 0 || ip == 0 {
    } else {
      AbortedStep(d, mem, core, ip);
      match Step(d, mem, core, ip)
      case At(core1, ip1) => AbortLatched(d, mem, n - 1, core1, ip1);
      case _ =>
    }
  }

  lemma StepClears(d: Dialect, mem: Memory, core: Core, ip: u32)
    requires mem.Valid() && Cleared(core)
    ensures var o := Step(d, mem, core, ip); o.At? ==> Cleared(o.core)
  {
    hide ApplyPrim, Load32;
    match Load32(mem, ip)
    case Failure(_) =>
    case Success(xt) =>
      match PrimOf(xt)
      case None =>
      case Some(p) => AbortClears(p, core);
  }

  lemma {:induction false} StepsClear(d: Dialect, mem: Memory, n: nat, core: Core, ip: u32)
    requires mem.Valid() && Cleared(core)
    ensures var o := Steps(d, mem, n, core, ip); o.At? ==> Cleared(o.core)
    decreases n
  {
    hide Step, Cleared;
    if n == 0 || ip == 0 {
    } else {
      StepClears(d, mem, core, ip);
      var o := Step(d, mem, core, ip);
      if o.At? {
        StepsClear(d, mem, n - 1, o.core, o.ip);
      }
    }
  }

  /** A compiled ABORT, an empty cell or a cell behind the enumeration aborts. */
  lemma AbortCells(d: Dialect, mem: Memory, core: Core, ip: u32, xt: u32)
    requires mem.Valid() && Load32(mem, ip) == Success(xt) && (xt == 0 || xt == 4 || xt > 71)
    ensures Step(d, mem, core, ip) == At(Core([], [], Repl, true), Wrap(ip + 4))
  {
  }

  /** The control cells of an aborted word: EXIT ends it, and a conditional branch takes
      the way of a false flag, as it does when the stack is empty. */
  lemma AbortedControl(d: Dialect, mem: Memory, core: Core, ip: u32)
    requires mem.Valid() && core.abort
    ensures Load32(mem, ip) == Success(5) ==> Step(d, mem, core, ip) == At(core, 0)
    ensures Load32(mem, ip) == Success(3) && Load32(mem, Wrap(ip + 4)).Success? ==>
              var operand := Load32(mem, Wrap(ip + 4)).value;
              var ip' := if d == AsWritten then operand else Wrap(Wrap(ip + 4) + Signed(operand));
              Step(d, mem, core, ip) == At(core, ip')
  {
  }

  lemma BranchOnNothing(d: Dialect, mem: Memory, core: Core, ip: u32, operand: u32)
    requires mem.Valid() && !core.abort && core.ds == []
    requires Load32(mem, ip) == Success(3) && Load32(mem, Wrap(ip + 4)) == Success(operand)
    ensures var ip' := if d == AsWritten then operand else Wrap(Wrap(ip + 4) + Signed(operand));
            Step(d, mem, core, ip) == At(Core([], [], Repl, true), ip')
  {
  }

  // ---- whole executions -----------------------------------------------------

  /** Where the loop stands between two turns. */
  datatype Point = Point(core: Core, ip: u32)

  /** The turns of one whole execution: each point leads to the next, and only the last
      has ip 0. */
  ghost predicate Execution(d: Dialect, mem: Memory, run: seq<Point>) {
    && mem.Valid() && run != [] && run[|run| - 1].ip == 0
    && forall i | 0 <= i < |run| - 1 ::
         run[i].ip != 0 && Step(d, mem, run[i].core, run[i].ip) == At(run[i + 1].core, run[i + 1].ip)
  }

  /** The loop goes through the execution turn by turn and stays at its end. */
  lemma {:induction false} ExecutionEnds(d: Dialect, mem: Memory, run: seq<Point>, fuel: nat)
    requires Execution(d, mem, run)
    ensures var last := if fuel < |run| then run[fuel] else run[|run| - 1];
            Steps(d, mem, fuel, run[0].core, run[0].ip) == At(last.core, last.ip)
    decreases fuel
  {
    hide Step;
    if fuel == 0 || run[0].ip == 0 {
      assert run[0].ip == 0 ==> |run| == 1;
    } else {
      var rest := run[1..];
      assert Step(d, mem, run[0].core, run[0].ip) == At(run[0 + 1].core, run[0 + 1].ip);
      assert Execution(d, mem, rest) by {
        forall i | 0 <= i < |rest| - 1
          ensures rest[i].ip != 0 && Step(d, mem, rest[i].core, rest[i].ip) == At(rest[i + 1].core, rest[i + 1].ip)
        {
          assert rest[i] == run[i + 1] && rest[i + 1] == run[i + 1 + 1];
        }
      }
      ExecutionEnds(d, mem, rest, fuel - 1);
    }
  }

  lemma ExecutionsEnd(d: Dialect, mem: Memory, core: Core, ip: u32, fuel: nat)
    requires mem.Valid()
    ensures forall run: seq<Point> | Execution(d, mem, run) && run[0] == Point(core, ip) ::
              if fuel < |run| - 1
              then Steps(d, mem, fuel, core, ip) == At(run[fuel].core, run[fuel].ip) && run[fuel].ip != 0
              else Steps(d, mem, fuel, core, ip) == At(run[|run| - 1].core, 0)
  {
    forall run: seq<Point> | Execution(d, mem, run) && run[0] == Point(core, ip)
      ensures if fuel < |run| - 1
              then Steps(d, mem, fuel, core, ip) == At(run[fuel].core, run[fuel].ip) && run[fuel].ip != 0
              else Steps(d, mem, fuel, core, ip) == At(run[|run| - 1].core, 0)
    {
      ExecutionEnds(d, mem, run, fuel);
    }
  }

  /** A loop that has come to ip 0 has gone through such an execution. */
  lemma {:induction false} ExecutionOf(d: Dialect, mem: Memory, n: nat, core: Core, ip: u32, core': Core)
    returns (run: seq<Point>)
    requires mem.Valid() && Steps(d, mem, n, core, ip) == At(core', 0)
    ensures Execution(d, mem, run) && |run| <= n + 1
    ensures run[0] == Point(core, ip) && run[|run| - 1] == Point(core', 0)
    decreases n
  {
    hide Step;
    run := [Point(core, ip)];
    if n == 0 || ip == 0 {
    } else {
      var o := Step(d, mem, core, ip);
      var rest := ExecutionOf(d, mem, n - 1, o.core, o.ip, core');
      run := run + rest;
      forall i | 0 <= i < |run| - 1
        ensures run[i].ip != 0 && Step(d, mem, run[i].core, run[i].ip) == At(run[i + 1].core, run[i + 1].ip)
      {
        if i > 0 {
          assert run[i] == rest[i - 1] && run[i + 1] == rest[i - 1 + 1];
        }
      }
    }
  }
}
