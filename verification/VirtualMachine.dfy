/** The machine context of forth_vm.h with the words that change it in place: each
    method does to the fields what the functions of Stacks and Threaded say. */
module VirtualMachine {
  import opened Words
  import opened Bus
  import opened Stacks
  import opened Threaded
  import Dictionary
  import Strings

  /** How a turn of the fetch loop ends: normally, with the end of the process, or at
      a token whose handler is not modelled. */
  datatype Turn = Went | Faulted(fault: Fault) | Unknown

  function TurnOf(o: Outcome): Turn {
    match o
    case At(_, _) => Went
    case Crash(f) => Faulted(f)
    case NotModelled => Unknown
  }

  class Vm {
    const bus: Bus
    const dialect: Dialect
    const dataStack: array<u32>
    const returnStack: array<u32>
    var sp: nat
    var rp: nat
    var ip: u32
    var mode: Mode
    var latestWord: u32
    var dictFreePtr: u32
    var abortFlag: bool

    ghost predicate Valid()
      reads this
    {
      && bus.Valid()
      && dataStack.Length == STACK_CELLS && returnStack.Length == STACK_CELLS && dataStack != returnStack
      && sp <= STACK_CELLS && rp <= STACK_CELLS
    }

    ghost function CoreState(): (c: Core)
      requires Valid()
      reads this, dataStack, returnStack
      ensures c.Valid()
    {
      Core(dataStack[..sp], returnStack[..rp], mode, abortFlag)
    }

    ghost function State(): (m: Machine)
      requires Valid()
      reads this, dataStack, returnStack, bus.fast, bus.ext
      ensures m.Valid() && m.core == CoreState()
    {
      Machine(CoreState(), bus.Contents(), ip, dictFreePtr, latestWord)
    }

    /** vm_context_init. */
    constructor (b: Bus, d: Dialect, dictStart: u32)
      requires b.Valid()
      ensures Valid() && bus == b && dialect == d && fresh(dataStack) && fresh(returnStack)
      ensures State() == Machine(Core([], [], Repl, false), b.Contents(), 0, dictStart, 0)
    {
      bus, dialect := b, d;
      dataStack := new u32[STACK_CELLS](_ => 0);
      returnStack := new u32[STACK_CELLS](_ => 0);
      sp, rp, ip, mode := 0, 0, 0, Repl;
      latestWord, dictFreePtr, abortFlag := 0, dictStart, false;
    }

    // ---- forth_vm.c ---------------------------------------------------------

    method AbortWithContext()
      requires Valid()
      modifies this`sp, this`rp, this`abortFlag, this`mode
      ensures Valid() && CoreState() == Abort(old(CoreState()))
    {
      sp, rp := 0, 0;
      abortFlag := true;
      mode := Repl;
    }

    method Push(val: u32)
      requires Valid()
      modifies this`sp, this`rp, this`abortFlag, this`mode, dataStack
      ensures Valid() && CoreState() == Stacks.Push(old(CoreState()), val)
    {
      if abortFlag {
        return;
      }
      if sp >= STACK_CELLS {
        AbortWithContext();
        return;
      }
      ghost var before := dataStack[..sp];
      dataStack[sp] := val;
      sp := sp + 1;
      assert dataStack[..sp] == before + [val];
    }

    method Pop() returns (val: u32)
      requires Valid()
      modifies this`sp, this`rp, this`abortFlag, this`mode
      ensures Valid() && (CoreState(), val) == Stacks.Pop(old(CoreState()))
    {
      if abortFlag {
        return 0;
      }
      if sp == 0 {
        AbortWithContext();
        return 0;
      }
      sp := sp - 1;
      val := dataStack[sp];
      assert old(dataStack[..sp])[..sp] == dataStack[..sp];
    }

    method RPush(val: u32)
      requires Valid()
      modifies this`sp, this`rp, this`abortFlag, this`mode, returnStack
      ensures Valid() && CoreState() == Stacks.RPush(old(CoreState()), val)
    {
      if abortFlag {
        return;
      }
      if rp >= STACK_CELLS {
        AbortWithContext();
        return;
      }
      ghost var before := returnStack[..rp];
      returnStack[rp] := val;
      rp := rp + 1;
      assert returnStack[..rp] == before + [val];
    }

    method RPop() returns (val: u32)
      requires Valid()
      modifies this`sp, this`rp, this`abortFlag, this`mode
      ensures Valid() && (CoreState(), val) == Stacks.RPop(old(CoreState()))
    {
      if abortFlag {
        return 0;
      }
      if rp == 0 {
        AbortWithContext();
        return 0;
      }
      rp := rp - 1;
      val := returnStack[rp];
      assert old(returnStack[..rp])[..rp] == returnStack[..rp];
    }

    method DropWord()
      requires Valid()
      modifies this`sp, this`rp, this`abortFlag, this`mode
      ensures Valid() && CoreState() == ApplyPrim(Drop, old(CoreState()))
    {
      var _ := Pop();
    }

    method DupWord()
      requires Valid()
      modifies this`sp, this`rp, this`abortFlag, this`mode, dataStack
      ensures Valid() && CoreState() == ApplyPrim(Dup, old(CoreState()))
    {
      if abortFlag {
        return;
      }
      if sp == 0 {
        AbortWithContext();
        return;
      }
      Push(dataStack[sp - 1]);
    }

    method OverWord()
      requires Valid()
      modifies this`sp, this`rp, this`abortFlag, this`mode, dataStack
      ensures Valid() && CoreState() == ApplyPrim(Over, old(CoreState()))
    {
      if abortFlag {
        return;
      }
      if sp < 2 {
        AbortWithContext();
        return;
      }
      Push(dataStack[sp - 2]);
    }

    method SwapWord()
      requires Valid()
      modifies this`sp, this`rp, this`abortFlag, this`mode, dataStack
      ensures Valid() && CoreState() == ApplyPrim(Swap, old(CoreState()))
    {
      if abortFlag {
        return;
      }
      if sp < 2 {
        AbortWithContext();
        return;
      }
      ghost var before := dataStack[..sp];
      var tmp := dataStack[sp - 1];
      dataStack[sp - 1] := dataStack[sp - 2];
      dataStack[sp - 2] := tmp;
      assert dataStack[..sp] == before[sp - 1 := before[sp - 2]][sp - 2 := before[sp - 1]];
    }

    // ---- the arithmetic words and the return-stack words --------------------

    /** A word of two operands: b is popped first. */
    method BinaryWord(p: Prim)
      requires Valid() && IsBinary(p)
      modifies this`sp, this`rp, this`abortFlag, this`mode, dataStack
      ensures Valid() && CoreState() == ApplyPrim(p, old(CoreState()))
    {
      hide ApplyPrim, Compute;
      BinaryIs(p, CoreState());
      var b := Pop();
      var a := Pop();
      if !abortFlag {
        Push(Compute(p, a, b));
      }
    }

    method UnaryWord(p: Prim)
      requires Valid() && (p == Invert || p == ZeroEqual)
      modifies this`sp, this`rp, this`abortFlag, this`mode, dataStack
      ensures Valid() && CoreState() == ApplyPrim(p, old(CoreState()))
    {
      hide ApplyPrim, Compute, Signed, Flag;
      UnaryIs(p, CoreState());
      var a := Pop();
      if !abortFlag {
        Push(if p == Invert then 0xFFFF_FFFF - a else Flag(Signed(a) == 0));
      }
    }

    method ToRWord()
      requires Valid()
      modifies this`sp, this`rp, this`abortFlag, this`mode, dataStack, returnStack
      ensures Valid() && CoreState() == ApplyPrim(ToR, old(CoreState()))
    {
      var val := Pop();
      RPush(val);
    }

    method FromRWord()
      requires Valid()
      modifies this`sp, this`rp, this`abortFlag, this`mode, dataStack, returnStack
      ensures Valid() && CoreState() == ApplyPrim(FromR, old(CoreState()))
    {
      var val := RPop();
      Push(val);
    }

    method Execute(p: Prim)
      requires Valid()
      modifies this`sp, this`rp, this`abortFlag, this`mode, dataStack, returnStack
      ensures Valid() && CoreState() == ApplyPrim(p, old(CoreState()))
    {
      hide ApplyPrim;
      match p
      case Drop => DropWord();
      case Dup => DupWord();
      case Over => OverWord();
      case Swap => SwapWord();
      case Invert | ZeroEqual => UnaryWord(p);
      case ToR => ToRWord();
      case FromR => FromRWord();
      case _ => BinaryWord(p);
    }

    // ---- the compile words --------------------------------------------------

    /** A method that answers r has done what the function that answers spec says. */
    ghost predicate Did(r: Result<()>, spec: Result<Machine>)
      requires Valid()
      reads this, dataStack, returnStack, bus.fast, bus.ext
    {
      match spec
      case Success(m) => r.Success? && State() == m
      case Failure(f) => r == Failure(f)
    }

    /** hw_write32 on the whole memory. */
    method WriteCell(addr: u32, val: u32) returns (r: Result<()>)
      requires Valid()
      modifies bus.fast, bus.ext
      ensures Valid()
      ensures match Store32(old(bus.Contents()), addr, val)
              case Success(mem) => r.Success? && bus.Contents() == mem
              case Failure(f) => r == Failure(f)
    {
      r := bus.Write32(addr, val);
    }

    /** Two cells at the frontier. */
    method WritePair(v: u32, w: u32) returns (r: Result<()>)
      requires Valid()
      modifies this`dictFreePtr, bus.fast, bus.ext
      ensures Valid()
      ensures Did(r, TwoCells(old(State()), v, w))
    {
      var freePtr := dictFreePtr;
      r := WriteCell(freePtr, v);
      if r.Failure? {
        return;
      }
      r := WriteCell(Wrap(freePtr + 4), w);
      if r.Failure? {
        return;
      }
      WrapAgain(freePtr, 4, 4);
      dictFreePtr := Wrap(freePtr + 8);
    }

    method BeginWord()
      requires Valid()
      modifies this`sp, this`rp, this`abortFlag, this`mode, dataStack
      ensures Valid() && State() == Begin(old(State()))
    {
      if mode != Compile {
        AbortWithContext();
        return;
      }
      Push(dictFreePtr);
    }

    method UntilWord() returns (r: Result<()>)
      requires Valid()
      modifies this, bus.fast, bus.ext
      ensures Valid() && Did(r, Until(dialect, old(State())))
    {
      if mode != Compile {
        AbortWithContext();
        return Success(());
      }
      var target := Pop();
      if dialect == AsWritten {
        r := WritePair(XT_0BRANCH, target);
      } else {
        r := WritePair(XT_0BRANCH, Wrap(target - Wrap(dictFreePtr + 4)));
      }
    }

    method IfWord() returns (r: Result<()>)
      requires Valid()
      modifies this, returnStack, bus.fast, bus.ext
      ensures Valid() && Did(r, If(old(State())))
    {
      var patchAddr := Wrap(dictFreePtr + 4);
      r := WritePair(XT_0BRANCH, 0);
      if r.Success? {
        RPush(patchAddr);
      }
    }

    method ThenWord() returns (r: Result<()>)
      requires Valid()
      modifies this, bus.fast, bus.ext
      ensures Valid() && Did(r, Then(old(State())))
    {
      var patchAddr := RPop();
      r := WriteCell(patchAddr, Wrap(dictFreePtr - patchAddr));
    }

    method ElseWord() returns (r: Result<()>)
      requires Valid()
      modifies this, returnStack, bus.fast, bus.ext
      ensures Valid() && Did(r, Else(old(State())))
    {
      hide Store32;
      var newPatchAddr := Wrap(dictFreePtr + 4);
      r := WritePair(XT_BRANCH, 0);
      if r.Failure? {
        return;
      }
      var ifPatchAddr := RPop();
      r := WriteCell(ifPatchAddr, Wrap(dictFreePtr - ifPatchAddr));
      if r.Success? {
        RPush(newPatchAddr);
      }
    }

    /** The text behind the token and the length, and the frontier behind its padding. */
    method WriteText(text: seq<u8>) returns (r: Result<()>)
      requires Valid() && |text| < STRING_BUFFER_SIZE
      modifies this`dictFreePtr, bus.fast, bus.ext
      ensures Valid() && Did(r, EmitText(old(State()), text))
    {
      r := bus.WriteBuf(dictFreePtr, text);
      if r.Success? {
        dictFreePtr := Wrap(dictFreePtr + AlignUp(|text|));
      }
    }

    /** S" behind the parser. */
    method QuoteWord(text: seq<u8>) returns (r: Result<()>)
      requires Valid() && |text| < STRING_BUFFER_SIZE
      modifies this, dataStack, bus.fast, bus.ext
      ensures Valid() && Did(r, Quote(old(State()), text))
    {
      match mode
      case Compile =>
        r := WritePair(XT_S_QUOTE, |text|);
        if r.Success? {
          r := WriteText(text);
        }
      case Repl =>
        var tempStrAddr := EXT_BASE + EXT_SIZE - STRING_BUFFER_SIZE;
        r := bus.WriteBuf(tempStrAddr, text);
        if r.Success? {
          Push(tempStrAddr);
          Push(|text|);
        }
      case Runtime =>
        r := Success(());
    }

    /** forth_dual_s_quote outside the fetch loop: parse_line_ptr is the position next
        in the line. */
    method SQuote(line: seq<u8>, start: nat) returns (next: nat, r: Result<()>)
      requires Valid() && Strings.NulFree(line) && start <= |line|
      modifies this, dataStack, bus.fast, bus.ext
      ensures next == Strings.Parse(line, start).1
      ensures Valid() && Did(r, Quote(old(State()), Strings.Parse(line, start).0))
    {
      var text;
      text, next := Strings.ParseQuoted(line, start);
      r := QuoteWord(text);
    }

    method NumberToken(v: u32) returns (r: Result<()>)
      requires Valid()
      modifies this, dataStack, bus.fast, bus.ext
      ensures Valid() && Did(r, InterpretWord(dialect, WNumber(v), old(State())))
    {
      match mode
      case Repl =>
        Push(v);
        r := Success(());
      case Compile =>
        r := WritePair(XT_LIT, v);
      case Runtime =>
        r := Success(());
    }

    method PrimToken(p: Prim) returns (r: Result<()>)
      requires Valid()
      modifies this, dataStack, returnStack, bus.fast, bus.ext
      ensures Valid() && Did(r, InterpretWord(dialect, WPrim(p), old(State())))
    {
      if mode == Repl {
        Execute(p);
        r := Success(());
      } else {
        r := WriteCell(dictFreePtr, XtOf(dialect, p));
        if r.Success? {
          dictFreePtr := Wrap(dictFreePtr + 4);
        }
      }
    }

    /** The dispatch of forth_interpret_line for one token. */
    method InterpretToken(w: Word) returns (r: Result<()>)
      requires Valid() && Parsed(w)
      modifies this, dataStack, returnStack, bus.fast, bus.ext
      ensures Valid() && Did(r, InterpretWord(dialect, w, old(State())))
    {
      match w
      case WNumber(v) => r := NumberToken(v);
      case WPrim(p) => r := PrimToken(p);
      case WString(text) => r := QuoteWord(text);
      case WBegin =>
        BeginWord();
        r := Success(());
      case WUntil => r := UntilWord();
      case WIf => r := IfWord();
      case WElse => r := ElseWord();
      case WThen => r := ThenWord();
    }

    /** The loop of forth_interpret_line over the tokens of a line. */
    method InterpretTokens(ws: seq<Word>) returns (r: Result<()>)
      requires Valid() && forall w | w in ws :: Parsed(w)
      modifies this, dataStack, returnStack, bus.fast, bus.ext
      ensures Valid() && Did(r, Interpret(dialect, ws, old(State())))
    {
      hide InterpretWord;
      var i := 0;
      while i < |ws|
        invariant 0 <= i <= |ws| && Valid()
        invariant Interpret(dialect, ws, old(State())) == Interpret(dialect, ws[i..], State())
      {
        assert ws[i..][0] == ws[i] && ws[i..][1..] == ws[i + 1..];
        r := InterpretToken(ws[i]);
        if r.Failure? {
          return;
        }
        i := i + 1;
      }
      r := Success(());
    }

    /** dict_add_word; name is a C string, so its length is strlen's. */
    method DictAddWord(name: seq<u8>) returns (r: Result<()>)
      requires Valid()
      modifies this`latestWord, this`dictFreePtr, bus.fast, bus.ext
      ensures Valid() && Did(r, Dictionary.AddWord(old(State()), name))
    {
      var freePtr, latest := dictFreePtr, latestWord;
      var nameLen := |name|;
      if nameLen > Dictionary.FORTH_MAX_WORD_LEN {
        nameLen := Dictionary.FORTH_MAX_WORD_LEN;
      }
      assert name[..nameLen] == Dictionary.Stored(name);
      r := WriteCell(freePtr, latest);
      if r.Failure? {
        return;
      }
      r := bus.Write8(Wrap(freePtr + 4), nameLen);
      if r.Failure? {
        return;
      }
      r := bus.WriteBuf(Wrap(freePtr + 5), name[..nameLen]);
      if r.Success? {
        latestWord := freePtr;
        dictFreePtr := AlignUp(Wrap(freePtr + 5 + nameLen));
      }
    }

    // ---- the fetch loop -----------------------------------------------------

    /** execute_native_id on the token just fetched; the ip is behind it. */
    method ExecuteToken(xt: u32) returns (t: Turn)
      requires Valid()
      modifies this, dataStack, returnStack
      ensures Valid() && dictFreePtr == old(dictFreePtr) && latestWord == old(latestWord)
      ensures t == TurnOf(Dispatch(dialect, bus.Contents(), old(CoreState()), xt, old(ip)))
      ensures t.Went? ==> At(CoreState(), ip) == Dispatch(dialect, bus.Contents(), old(CoreState()), xt, old(ip))
    {
      if xt == XT_LIT {
        var v := bus.Read32(ip);
        if v.Failure? {
          return Faulted(v.fault);
        }
        Push(v.value);
        ip := Wrap(ip + 4);
      } else if xt == XT_BRANCH {
        var offset := bus.Read32(ip);
        if offset.Failure? {
          return Faulted(offset.fault);
        }
        ip := Wrap(ip + Signed(offset.value));
      } else if xt == XT_0BRANCH {
        t := ZeroBranch();
        return;
      } else if xt == XT_S_QUOTE {
        t := RunQuote();
        return;
      } else if xt == XT_EXIT {
        ip := RPop();
      } else if xt == XT_ABORT || NoHandler(xt) {
        AbortWithContext();
      } else {
        var p := PrimOf(xt);
        if p.None? {
          return Unknown;
        }
        Execute(p.value);
      }
      t := Went;
    }

    method ZeroBranch() returns (t: Turn)
      requires Valid()
      modifies this
      ensures Valid() && dictFreePtr == old(dictFreePtr) && latestWord == old(latestWord)
      ensures t == TurnOf(Dispatch(dialect, bus.Contents(), old(CoreState()), XT_0BRANCH, old(ip)))
      ensures t.Went? ==>
                At(CoreState(), ip) == Dispatch(dialect, bus.Contents(), old(CoreState()), XT_0BRANCH, old(ip))
    {
      var flag := Pop();
      var target := bus.Read32(ip);
      if target.Failure? {
        return Faulted(target.fault);
      }
      if flag == 0 {
        ip := if dialect == AsWritten then target.value else Wrap(ip + Signed(target.value));
      } else {
        ip := Wrap(ip + 4);
      }
      t := Went;
    }

    /** S" at run time. */
    method RunQuote() returns (t: Turn)
      requires Valid()
      modifies this, dataStack
      ensures Valid() && dictFreePtr == old(dictFreePtr) && latestWord == old(latestWord)
      ensures t == TurnOf(Dispatch(dialect, bus.Contents(), old(CoreState()), XT_S_QUOTE, old(ip)))
      ensures t.Went? ==>
                At(CoreState(), ip) == Dispatch(dialect, bus.Contents(), old(CoreState()), XT_S_QUOTE, old(ip))
    {
      if mode != Runtime {
        return Unknown;
      }
      var len := bus.Read32(ip);
      if len.Failure? {
        return Faulted(len.fault);
      }
      Push(Wrap(ip + 4));
      Push(len.value);
      ip := Wrap(ip + 4 + AlignUp(len.value));
      t := Went;
    }

    /** Lines 1234-1239 for at most fuel turns. */
    method FetchLoop(fuel: nat) returns (t: Turn)
      requires Valid()
      modifies this, dataStack, returnStack
      ensures Valid() && dictFreePtr == old(dictFreePtr) && latestWord == old(latestWord)
      ensures var o := Steps(dialect, bus.Contents(), fuel, old(CoreState()), old(ip));
              t == TurnOf(o) && (o.At? ==> CoreState() == o.core && ip == o.ip)
    {
      hide Dispatch;
      ghost var start, startIp, mem := CoreState(), ip, bus.Contents();
      var n := fuel;
      while ip != 0 && n > 0
        invariant Valid() && dictFreePtr == old(dictFreePtr) && latestWord == old(latestWord)
        invariant bus.Contents() == mem && 0 <= n <= fuel
        invariant Steps(dialect, mem, fuel, start, startIp) == Steps(dialect, mem, n, CoreState(), ip)
        decreases n
      {
        var xt := bus.Read32(ip);
        if xt.Failure? {
          return Faulted(xt.fault);
        }
        ip := Wrap(ip + 4);
        t := ExecuteToken(xt.value);
        if !t.Went? {
          return;
        }
        n := n - 1;
      }
      t := Went;
    }

    /** forth_execute_compiled_xt for at most fuel turns: done says that the loop
        ended, and then mode and ip are what they were before. */
    method ExecuteCompiled(xtAddress: u32, fuel: nat) returns (done: bool, t: Turn)
      requires Valid()
      modifies this, dataStack, returnStack
      ensures Valid() && dictFreePtr == old(dictFreePtr) && latestWord == old(latestWord)
      ensures var o := Steps(dialect, bus.Contents(), fuel, old(CoreState()).(mode := Runtime), xtAddress);
              && t == TurnOf(o)
              && (o.At? ==> done == (o.ip == 0))
              && (o.At? && done ==> CoreState() == o.core.(mode := old(mode)) && ip == old(ip))
              && (o.At? && !done ==> CoreState() == o.core && ip == o.ip)
      // with fuel for all its turns a whole execution is done, and with less it is on its way
      ensures forall run: seq<Point> | Execution(dialect, bus.Contents(), run)
                                       && run[0] == Point(old(CoreState()).(mode := Runtime), xtAddress) ::
                if fuel < |run| - 1 then !done && t == Went && CoreState() == run[fuel].core && ip == run[fuel].ip
                else done && t == Went && CoreState() == run[|run| - 1].core.(mode := old(mode)) && ip == old(ip)
    {
      hide Steps, Execution;
      var previousState, previousIp := mode, ip;
      mode, ip := Runtime, xtAddress;
      ExecutionsEnd(dialect, bus.Contents(), CoreState(), xtAddress, fuel);
      t := FetchLoop(fuel);
      done := t.Went? && ip == 0;
      if done {
        mode, ip := previousState, previousIp;
      }
    }
  }

  /** What two cells in a row come to. */
  function TwoCells(m: Machine, v: u32, w: u32): (r: Result<Machine>)
    requires m.Valid()
    ensures r.Success? ==> r.value.Valid()
  {
    var m1 :- Emit(m, v);
    Emit(m1, w)
  }

  lemma WrapAgain(x: int, a: int, b: int)
    ensures Wrap(Wrap(x + a) + b) == Wrap(x + a + b)
  {
  }
}
