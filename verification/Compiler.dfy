/** Structured programs, their text, and the back-patching discipline: what the
    compile words leave in memory for any nesting. */
module Compiler {
  import opened Words
  import opened Bus
  import opened Stacks
  import opened Threaded

  datatype Prog =
    | Nothing
    | Lit(value: u32)
    | Call(prim: Prim)
    | Str(text: seq<u8>)
    | Seq(first: Prog, second: Prog)
    | IfThen(yes: Prog)
    | IfElse(yes: Prog, no: Prog)
    | Loop(body: Prog)

  /** The words the program is written with. */
  function Text(p: Prog): seq<Word> {
    match p
    case Nothing => []
    case Lit(v) => [WNumber(v)]
    case Call(w) => [WPrim(w)]
    case Str(t) => [WString(t)]
    case Seq(a, b) => Text(a) + Text(b)
    case IfThen(t) => [WIf] + Text(t) + [WThen]
    case IfElse(t, e) => [WIf] + Text(t) + [WElse] + Text(e) + [WThen]
    case Loop(b) => [WBegin] + Text(b) + [WUntil]
  }

  /** What a cell of code must hold: a value, or the bytes of a piece of text,
      padding left as it was. */
  datatype Slot = Value(v: u32) | Piece(bytes: seq<u8>)

  function Pieces(text: seq<u8>): seq<Slot> {
    if text == [] then []
    else if |text| <= 4 then [Piece(text)]
    else [Piece(text[..4])] + Pieces(text[4..])
  }

  /** The pieces of a text fill its length rounded up to whole cells. */
  lemma {:induction false} PiecesFill(text: seq<u8>)
    requires |text| < 0xFFFF_FFF0
    ensures 4 * |Pieces(text)| == AlignUp(|text|) >= |text|
  {
    if |text| <= 4 {
    } else {
      PiecesFill(text[4..]);
    }
  }

  /** Cells of code. */
  function Slots(p: Prog): nat {
    match p
    case Nothing => 0
    case Lit(_) => 2
    case Call(_) => 1
    case Str(t) => 2 + |Pieces(t)|
    case Seq(a, b) => Slots(a) + Slots(b)
    case IfThen(t) => 2 + Slots(t)
    case IfElse(t, e) => 4 + Slots(t) + Slots(e)
    case Loop(b) => Slots(b) + 2
  }

  /** Bytes of code. */
  function Size(p: Prog): nat {
    4 * Slots(p)
  }

  function Max(a: nat, b: nat): nat {
    if a < b then b else a
  }

  /** Data-stack cells BEGIN needs, and return-stack cells IF needs. */
  function LoopDepth(p: Prog): nat {
    match p
    case Seq(a, b) => Max(LoopDepth(a), LoopDepth(b))
    case IfThen(t) => LoopDepth(t)
    case IfElse(t, e) => Max(LoopDepth(t), LoopDepth(e))
    case Loop(b) => 1 + LoopDepth(b)
    case _ => 0
  }

  function IfDepth(p: Prog): nat {
    match p
    case Seq(a, b) => Max(IfDepth(a), IfDepth(b))
    case IfThen(t) => 1 + IfDepth(t)
    case IfElse(t, e) => 1 + Max(IfDepth(t), IfDepth(e))
    case Loop(b) => IfDepth(b)
    case _ => 0
  }

  /** Every string passed the parser's length limit. */
  predicate TextsFit(p: Prog) {
    match p
    case Str(t) => |t| < STRING_BUFFER_SIZE
    case Seq(a, b) => TextsFit(a) && TextsFit(b)
    case IfThen(t) => TextsFit(t)
    case IfElse(t, e) => TextsFit(t) && TextsFit(e)
    case Loop(b) => TextsFit(b)
    case _ => true
  }

  lemma {:induction false} TextParsed(p: Prog)
    requires TextsFit(p)
    ensures forall w | w in Text(p) :: Parsed(w)
  {
    match p
    case Seq(a, b) => TextParsed(a); TextParsed(b);
    case IfThen(t) => TextParsed(t);
    case IfElse(t, e) => TextParsed(t); TextParsed(e);
    case Loop(b) => TextParsed(b);
    case _ =>
  }

  /** The same program with each word replaced by the one its token runs. */
  function AsCompiled(d: Dialect, p: Prog): Prog {
    match p
    case Call(w) => Call(CompiledAs(d, w))
    case Seq(a, b) => Seq(AsCompiled(d, a), AsCompiled(d, b))
    case IfThen(t) => IfThen(AsCompiled(d, t))
    case IfElse(t, e) => IfElse(AsCompiled(d, t), AsCompiled(d, e))
    case Loop(b) => Loop(AsCompiled(d, b))
    case _ => p
  }

  predicate Mentions(p: Prog, w: Prim) {
    match p
    case Call(v) => v == w
    case Seq(a, b) => Mentions(a, w) || Mentions(b, w)
    case IfThen(t) => Mentions(t, w)
    case IfElse(t, e) => Mentions(t, w) || Mentions(e, w)
    case Loop(b) => Mentions(b, w)
    case _ => false
  }

  /** Without RSHIFT, or with its token repaired, that is the program itself. */
  lemma {:induction false} AsCompiledSame(d: Dialect, p: Prog)
    requires d == Repaired || !Mentions(p, Rshift)
    ensures AsCompiled(d, p) == p
  {
    match p
    case Seq(a, b) => AsCompiledSame(d, a); AsCompiledSame(d, b);
    case IfThen(t) => AsCompiledSame(d, t);
    case IfElse(t, e) => AsCompiledSame(d, t); AsCompiledSame(d, e);
    case Loop(b) => AsCompiledSame(d, b);
    case _ =>
  }

  lemma {:induction false} AsCompiledFits(d: Dialect, p: Prog)
    ensures Slots(AsCompiled(d, p)) == Slots(p) && TextsFit(AsCompiled(d, p)) == TextsFit(p)
  {
    hide Pieces;
    match p
    case Seq(a, b) => AsCompiledFits(d, a); AsCompiledFits(d, b);
    case IfThen(t) => AsCompiledFits(d, t);
    case IfElse(t, e) => AsCompiledFits(d, t); AsCompiledFits(d, e);
    case Loop(b) => AsCompiledFits(d, b);
    case _ =>
  }

  // ---- code in memory -------------------------------------------------------

  const SPI_CELLS: int := 0x4_0000

  /** The address of cell k of the SPI-RAM. */
  function Addr(k: int): int {
    EXT_BASE + 4 * k
  }

  /** Cells k..k+n exist. */
  predicate InSpi(k: int, n: int) {
    0 <= k && 0 <= n && k + n <= SPI_CELLS
  }

  /** The value UNTIL leaves in its operand cell c for a loop that begins at cell k. */
  function LoopOperand(d: Dialect, k: int, c: int): u32 {
    Wrap(if d == AsWritten then Addr(k) else Addr(k) - Addr(c))
  }

  /** The value IF and ELSE leave in their operand cell c: target - c. */
  function ForwardOperand(c: int, target: int): u32 {
    Wrap(Addr(target) - Addr(c))
  }

  function StrCode(t: seq<u8>): (r: seq<Slot>)
    ensures |r| == 2 + |Pieces(t)|
  {
    [Value(XT_S_QUOTE), Value(Wrap(|t|))] + Pieces(t)
  }

  function IfThenCode(k: int, body: seq<Slot>): (r: seq<Slot>)
    ensures |r| == 2 + |body|
  {
    [Value(XT_0BRANCH), Value(ForwardOperand(k + 1, k + 2 + |body|))] + body
  }

  function ElseCode(k: int, yes: seq<Slot>): (r: seq<Slot>)
    ensures |r| == 2 + |yes|
  {
    [Value(XT_0BRANCH), Value(ForwardOperand(k + 1, k + 4 + |yes|))] + yes
  }

  function IfElseCode(k: int, yes: seq<Slot>, no: seq<Slot>): (r: seq<Slot>)
    ensures |r| == 4 + |yes| + |no|
  {
    var c := k + 3 + |yes|;
    ElseCode(k, yes) + [Value(XT_BRANCH), Value(ForwardOperand(c, c + 1 + |no|))] + no
  }

  function LoopCode(d: Dialect, k: int, body: seq<Slot>): (r: seq<Slot>)
    ensures |r| == |body| + 2
  {
    body + [Value(XT_0BRANCH), Value(LoopOperand(d, k, k + |body| + 1))]
  }

  /** The code of p when it is compiled at cell k. */
  function Code(d: Dialect, k: int, p: Prog): seq<Slot>
    decreases p
  {
    match p
    case Nothing => []
    case Lit(v) => [Value(XT_LIT), Value(v)]
    case Call(w) => [Value(XtOf(d, w))]
    case Str(t) => StrCode(t)
    case Seq(a, b) => Code(d, k, a) + Code(d, k + Slots(a), b)
    case IfThen(t) => IfThenCode(k, Code(d, k + 2, t))
    case IfElse(t, e) => IfElseCode(k, Code(d, k + 2, t), Code(d, k + 4 + Slots(t), e))
    case Loop(b) => LoopCode(d, k, Code(d, k, b))
  }

  /** The code of a compound is made of the code of its parts. */
  lemma CodeShape(d: Dialect, k: int, p: Prog)
    ensures p.Seq? ==> Code(d, k, p) == Code(d, k, p.first) + Code(d, k + Slots(p.first), p.second)
    ensures p.IfThen? ==> Code(d, k, p) == IfThenCode(k, Code(d, k + 2, p.yes))
    ensures p.IfElse? ==> Code(d, k, p) == IfElseCode(k, Code(d, k + 2, p.yes), Code(d, k + 4 + Slots(p.yes), p.no))
    ensures p.Loop? ==> Code(d, k, p) == LoopCode(d, k, Code(d, k, p.body))
  {
    hide IfThenCode, IfElseCode, LoopCode, StrCode, Slots, XtOf;
  }

  lemma LeafSize(d: Dialect, k: int, p: Prog)
    requires p.Nothing? || p.Lit? || p.Call? || p.Str?
    ensures |Code(d, k, p)| == Slots(p)
  {
    hide XtOf, Pieces;
  }

  lemma {:induction false} CodeSize(d: Dialect, k: int, p: Prog)
    ensures |Code(d, k, p)| == Slots(p)
    decreases p
  {
    hide Code, IfThenCode, IfElseCode, LoopCode;
    CodeShape(d, k, p);
    match p
    case Seq(a, b) =>
      CodeSize(d, k, a);
      CodeSize(d, k + Slots(a), b);
    case IfThen(t) => CodeSize(d, k + 2, t);
    case IfElse(t, e) =>
      CodeSize(d, k + 2, t);
      CodeSize(d, k + 4 + Slots(t), e);
    case Loop(b) => CodeSize(d, k, b);
    case _ => LeafSize(d, k, p);
  }

  ghost predicate SlotAt(ext: seq<u8>, k: int, s: Slot)
    requires |ext| == EXT_SIZE && InSpi(k, 1)
  {
    match s
    case Value(v) => Get32(ext, 4 * k) == v
    case Piece(bytes) => |bytes| <= 4 && ext[4 * k..4 * k + |bytes|] == bytes
  }

  /** From cell k on, memory holds the code. */
  ghost predicate Matches(ext: seq<u8>, k: int, code: seq<Slot>) {
    && |ext| == EXT_SIZE && InSpi(k, |code|)
    && forall j | 0 <= j < |code| :: SlotAt(ext, k + j, code[j])
  }

  /** The SPI-RAM changed at most in cells lo..hi. */
  ghost predicate OnlyIn(ext: seq<u8>, ext': seq<u8>, lo: int, hi: int) {
    && |ext| == |ext'| == EXT_SIZE
    && forall o | 0 <= o < EXT_SIZE && (o < 4 * lo || 4 * hi <= o) :: ext'[o] == ext[o]
  }

  lemma MatchesFrame(ext: seq<u8>, ext': seq<u8>, lo: int, hi: int, k: int, code: seq<Slot>)
    requires OnlyIn(ext, ext', lo, hi) && Matches(ext, k, code) && (k + |code| <= lo || hi <= k)
    ensures Matches(ext', k, code)
  {
    forall j | 0 <= j < |code|
      ensures SlotAt(ext', k + j, code[j])
    {
      var o := 4 * (k + j);
      assert SlotAt(ext, k + j, code[j]);
      assert ext'[o..o + 4] == ext[o..o + 4];
      if code[j].Piece? {
        var n := |code[j].bytes|;
        assert ext'[o..o + n] == ext[o..o + n];
      }
    }
  }

  lemma MatchesAppend(ext: seq<u8>, k: int, a: seq<Slot>, b: seq<Slot>)
    ensures Matches(ext, k, a + b) <==> Matches(ext, k, a) && Matches(ext, k + |a|, b)
  {
    var c := a + b;
    if Matches(ext, k, c) {
      forall j | 0 <= j < |a|
        ensures SlotAt(ext, k + j, a[j])
      {
        assert SlotAt(ext, k + j, c[j]);
      }
      forall j | 0 <= j < |b|
        ensures SlotAt(ext, k + |a| + j, b[j])
      {
        assert SlotAt(ext, k + (|a| + j), c[|a| + j]);
      }
    }
    if Matches(ext, k, a) && Matches(ext, k + |a|, b) {
      forall j | 0 <= j < |c|
        ensures SlotAt(ext, k + j, c[j])
      {
        if j < |a| {
          assert SlotAt(ext, k + j, a[j]);
        } else {
          assert SlotAt(ext, k + |a| + (j - |a|), b[j - |a|]);
        }
      }
    }
  }

  lemma MatchesOne(ext: seq<u8>, k: int, v: u32)
    ensures Matches(ext, k, [Value(v)]) <==> |ext| == EXT_SIZE && InSpi(k, 1) && Get32(ext, 4 * k) == v
  {
    if Matches(ext, k, [Value(v)]) {
      assert SlotAt(ext, k + 0, [Value(v)][0]);
    }
  }

  lemma MatchesTwo(ext: seq<u8>, k: int, v: u32, w: u32)
    ensures Matches(ext, k, [Value(v), Value(w)])
       <==> |ext| == EXT_SIZE && InSpi(k, 2) && Get32(ext, 4 * k) == v && Get32(ext, 4 * (k + 1)) == w
  {
    assert [Value(v), Value(w)] == [Value(v)] + [Value(w)];
    MatchesAppend(ext, k, [Value(v)], [Value(w)]);
    MatchesOne(ext, k, v);
    MatchesOne(ext, k + 1, w);
  }

  lemma MatchesPiece(ext: seq<u8>, k: int, bytes: seq<u8>)
    requires |ext| == EXT_SIZE && InSpi(k, 1) && |bytes| <= 4
    ensures Matches(ext, k, [Piece(bytes)]) <==> ext[4 * k..4 * k + |bytes|] == bytes
  {
    if Matches(ext, k, [Piece(bytes)]) {
      assert SlotAt(ext, k + 0, [Piece(bytes)][0]);
    }
  }

  lemma SliceSplit(ext: seq<u8>, o: nat, a: seq<u8>, b: seq<u8>)
    requires o + |a| + |b| <= |ext|
    ensures ext[o..o + |a + b|] == a + b <==> ext[o..o + |a|] == a && ext[o + |a|..o + |a| + |b|] == b
  {
    var s := ext[o..o + |a + b|];
    assert s[..|a|] == ext[o..o + |a|];
    assert s[|a|..] == ext[o + |a|..o + |a| + |b|];
    assert s == s[..|a|] + s[|a|..];
    if s == a + b {
      assert (a + b)[..|a|] == a && (a + b)[|a|..] == b;
    }
  }

  /** The pieces are the text. */
  lemma {:induction false} MatchesPieces(ext: seq<u8>, k: int, text: seq<u8>)
    requires |ext| == EXT_SIZE && InSpi(k, |Pieces(text)|) && |text| <= 4 * |Pieces(text)|
    ensures Matches(ext, k, Pieces(text)) <==> ext[4 * k..4 * k + |text|] == text
    decreases |text|
  {
    if text == [] {
    } else if |text| <= 4 {
      MatchesPiece(ext, k, text);
    } else {
      var head, tail := text[..4], text[4..];
      assert text == head + tail;
      MatchesPieces(ext, k + 1, tail);
      PiecesJoin(ext, k, head, tail, Pieces(tail));
    }
  }

  lemma PiecesJoin(ext: seq<u8>, k: int, head: seq<u8>, tail: seq<u8>, rest: seq<Slot>)
    requires |ext| == EXT_SIZE && InSpi(k, 1 + |rest|) && |head| == 4 && 4 * k + 4 + |tail| <= EXT_SIZE
    requires Matches(ext, k + 1, rest) <==> ext[4 * (k + 1)..4 * (k + 1) + |tail|] == tail
    ensures Matches(ext, k, [Piece(head)] + rest) <==> ext[4 * k..4 * k + |head + tail|] == head + tail
  {
    MatchesPiece(ext, k, head);
    MatchesAppend(ext, k, [Piece(head)], rest);
    SliceSplit(ext, 4 * k, head, tail);
  }

  // ---- writing code ---------------------------------------------------------

  function WriteSlot(ext: seq<u8>, k: int, s: Slot): (r: seq<u8>)
    requires |ext| == EXT_SIZE && InSpi(k, 1) && (s.Piece? ==> |s.bytes| <= 4)
    ensures |r| == EXT_SIZE
  {
    match s
    case Value(v) => Put32(ext, 4 * k, v)
    case Piece(bytes) => Overwrite(ext, 4 * k, bytes)
  }

  predicate PiecesSmall(code: seq<Slot>) {
    forall s | s in code :: s.Piece? ==> |s.bytes| <= 4
  }

  /** Memory after code is written from cell k on. */
  function WriteCode(ext: seq<u8>, k: int, code: seq<Slot>): (r: seq<u8>)
    requires |ext| == EXT_SIZE && InSpi(k, |code|) && PiecesSmall(code)
    ensures |r| == EXT_SIZE
    decreases |code|
  {
    if code == [] then ext
    else
      var n := |code| - 1;
      WriteSlot(WriteCode(ext, k, code[..n]), k + n, code[n])
  }

  lemma {:induction false} WriteAppend(ext: seq<u8>, k: int, a: seq<Slot>, b: seq<Slot>)
    requires |ext| == EXT_SIZE && InSpi(k, |a| + |b|) && PiecesSmall(a) && PiecesSmall(b)
    ensures PiecesSmall(a + b)
    ensures WriteCode(ext, k, a + b) == WriteCode(WriteCode(ext, k, a), k + |a|, b)
    decreases |b|
  {
    hide WriteSlot;
    if b == [] {
      assert a + b == a;
    } else {
      var n := |b| - 1;
      WriteAppend(ext, k, a, b[..n]);
      assert (a + b)[..|a| + n] == a + b[..n];
    }
  }

  /** The bytes a slot covers, and those it leaves. */
  lemma WriteSlotAt(ext: seq<u8>, k: int, s: Slot)
    requires |ext| == EXT_SIZE && InSpi(k, 1) && (s.Piece? ==> |s.bytes| <= 4)
    ensures forall i | 0 <= i < EXT_SIZE && (i < 4 * k || 4 * k + 4 <= i) :: WriteSlot(ext, k, s)[i] == ext[i]
    ensures SlotAt(WriteSlot(ext, k, s), k, s)
  {
    match s
    case Value(v) => GetPut32(ext, 4 * k, v);
    case Piece(bytes) =>
      OverwriteAt(ext, 4 * k, bytes);
      assert WriteSlot(ext, k, s)[4 * k..4 * k + |bytes|] == bytes;
  }

  lemma SlotsCommute(ext: seq<u8>, c: int, v: u32, k: int, s: Slot)
    requires |ext| == EXT_SIZE && InSpi(k, 1) && InSpi(c, 1) && k != c && (s.Piece? ==> |s.bytes| <= 4)
    ensures Put32(WriteSlot(ext, k, s), 4 * c, v) == WriteSlot(Put32(ext, 4 * c, v), k, s)
  {
    hide Overwrite;
    OverwritesCommute(ext, 4 * k, if s.Value? then Bytes32(s.v) else s.bytes, 4 * c, Bytes32(v));
  }

  lemma OverwritesCommute(m: seq<u8>, o: int, a: seq<u8>, p: int, b: seq<u8>)
    requires 0 <= o && o + |a| <= |m| && 0 <= p && p + |b| <= |m| && (o + |a| <= p || p + |b| <= o)
    ensures Overwrite(Overwrite(m, o, a), p, b) == Overwrite(Overwrite(m, p, b), o, a)
  {
    OverwriteAt(m, o, a);
    OverwriteAt(Overwrite(m, o, a), p, b);
    OverwriteAt(m, p, b);
    OverwriteAt(Overwrite(m, p, b), o, a);
    hide Overwrite;
    var x, y := Overwrite(Overwrite(m, o, a), p, b), Overwrite(Overwrite(m, p, b), o, a);
    forall i | 0 <= i < |m|
      ensures x[i] == y[i]
    {
    }
  }

  lemma PutTwice(ext: seq<u8>, o: int, v: u32, v': u32)
    requires 0 <= o <= |ext| - 4
    ensures Put32(Put32(ext, o, v), o, v') == Put32(ext, o, v')
  {
    OverwriteAt(ext, o, Bytes32(v));
    OverwriteAt(Put32(ext, o, v), o, Bytes32(v'));
    OverwriteAt(ext, o, Bytes32(v'));
  }

  /** Patching a cell of code already written is writing the patched code. */
  lemma {:induction false} PatchCode(ext: seq<u8>, k: int, code: seq<Slot>, i: nat, v: u32)
    requires |ext| == EXT_SIZE && InSpi(k, |code|) && PiecesSmall(code)
    requires i < |code| && code[i].Value?
    ensures PiecesSmall(code[i := Value(v)])
    ensures Put32(WriteCode(ext, k, code), 4 * (k + i), v) == WriteCode(ext, k, code[i := Value(v)])
    decreases |code|
  {
    hide Put32;
    var n := |code| - 1;
    var patched := code[i := Value(v)];
    if i == n {
      assert patched[..n] == code[..n];
      PutTwice(WriteCode(ext, k, code[..n]), 4 * (k + n), code[n].v, v);
    } else {
      hide WriteSlot;
      PatchCode(ext, k, code[..n], i, v);
      assert patched[..n] == code[..n][i := Value(v)];
      SlotsCommute(WriteCode(ext, k, code[..n]), k + i, v, k + n, code[n]);
    }
  }

  /** What writing code means: the code is there and no other cell changed. */
  lemma {:induction false} WriteMeaning(ext: seq<u8>, k: int, code: seq<Slot>)
    requires |ext| == EXT_SIZE && InSpi(k, |code|) && PiecesSmall(code)
    ensures OnlyIn(ext, WriteCode(ext, k, code), k, k + |code|)
    ensures Matches(WriteCode(ext, k, code), k, code)
    decreases |code|
  {
    hide WriteSlot, SlotAt;
    if code == [] {
    } else {
      var n := |code| - 1;
      var ext1, ext2 := WriteCode(ext, k, code[..n]), WriteCode(ext, k, code);
      WriteMeaning(ext, k, code[..n]);
      WriteSlotAt(ext1, k + n, code[n]);
      assert OnlyIn(ext1, ext2, k + n, k + n + 1);
      MatchesFrame(ext1, ext2, k + n, k + n + 1, k, code[..n]);
      forall j | 0 <= j < |code|
        ensures SlotAt(ext2, k + j, code[j])
      {
        if j < n {
          assert SlotAt(ext2, k + j, code[..n][j]);
        }
      }
    }
  }

  lemma {:induction false} PiecesAreSmall(text: seq<u8>)
    ensures PiecesSmall(Pieces(text))
  {
    if |text| <= 4 {
    } else {
      PiecesAreSmall(text[4..]);
    }
  }

  /** Storing a text writes its pieces; the padding keeps its old bytes. */
  lemma {:induction false} WritePieces(ext: seq<u8>, k: int, text: seq<u8>)
    requires |ext| == EXT_SIZE && InSpi(k, |Pieces(text)|) && 4 * k + |text| <= EXT_SIZE
    ensures PiecesSmall(Pieces(text)) && Overwrite(ext, 4 * k, text) == WriteCode(ext, k, Pieces(text))
    decreases |text|
  {
    PiecesAreSmall(text);
    if text == [] {
    } else if |text| <= 4 {
      WriteSingle(ext, k, Piece(text));
    } else {
      hide WriteCode, Overwrite;
      var head, tail := text[..4], text[4..];
      assert text == head + tail;
      OverwriteAppend(ext, 4 * k, head, tail);
      WriteSingle(ext, k, Piece(head));
      var ext1 := Overwrite(ext, 4 * k, head);
      WritePieces(ext1, k + 1, tail);
      WriteAppend(ext, k, [Piece(head)], Pieces(tail));
    }
  }

  lemma WriteSingle(ext: seq<u8>, k: int, s: Slot)
    requires |ext| == EXT_SIZE && InSpi(k, 1) && (s.Piece? ==> |s.bytes| <= 4)
    ensures PiecesSmall([s]) && WriteCode(ext, k, [s]) == WriteSlot(ext, k, s)
  {
    assert [s][..0] == [];
    assert WriteCode(ext, k, []) == ext;
  }

  // ---- what each compile word writes ----------------------------------------

  /** m with code written behind the frontier, cell k, and the frontier moved. */
  function Written(m: Machine, k: int, code: seq<Slot>): (r: Machine)
    requires m.Valid() && InSpi(k, |code|) && PiecesSmall(code)
    ensures r.Valid()
  {
    m.(mem := m.mem.(ext := WriteCode(m.mem.ext, k, code)), here := Addr(k + |code|))
  }

  lemma WrittenTwice(m: Machine, k: int, a: seq<Slot>, b: seq<Slot>)
    requires m.Valid() && InSpi(k, |a| + |b|) && PiecesSmall(a) && PiecesSmall(b)
    ensures PiecesSmall(a + b) && Written(Written(m, k, a), k + |a|, b) == Written(m, k, a + b)
  {
    WriteAppend(m.mem.ext, k, a, b);
  }

  lemma EmitWrites(m: Machine, k: int, v: u32)
    requires m.Valid() && InSpi(k, 1) && m.here == Addr(k)
    ensures Emit(m, v) == Success(Written(m, k, [Value(v)]))
  {
    WriteSingle(m.mem.ext, k, Value(v));
  }

  /** Two cells in a row. */
  lemma EmitTwo(m: Machine, k: int, v: u32, w: u32)
    requires m.Valid() && InSpi(k, 2) && m.here == Addr(k)
    ensures Emit(m, v) == Success(Written(m, k, [Value(v)]))
    ensures Emit(Emit(m, v).value, w) == Success(Written(m, k, [Value(v), Value(w)]))
  {
    EmitWrites(m, k, v);
    EmitWrites(Written(m, k, [Value(v)]), k + 1, w);
    WrittenTwice(m, k, [Value(v)], [Value(w)]);
    assert [Value(v)] + [Value(w)] == [Value(v), Value(w)];
  }

  lemma TextWrites(m: Machine, k: int, t: seq<u8>)
    requires m.Valid() && InSpi(k, |Pieces(t)|) && |t| < STRING_BUFFER_SIZE && m.here == Addr(k)
    ensures PiecesSmall(Pieces(t)) && EmitText(m, t) == Success(Written(m, k, Pieces(t)))
  {
    hide RingStore, WriteCode, Pieces;
    PiecesFill(t);
    RingStoreContiguous(m.mem, Addr(k), t);
    WritePieces(m.mem.ext, k, t);
  }

  /** S" while compiling. */
  lemma QuoteWrites(m: Machine, k: int, t: seq<u8>)
    requires m.Valid() && m.core.mode == Compile && |t| < STRING_BUFFER_SIZE
    requires m.here == Addr(k) && InSpi(k, |StrCode(t)|)
    ensures PiecesSmall(StrCode(t)) && Quote(m, t) == Success(Written(m, k, StrCode(t)))
  {
    hide EmitText, Emit, WriteCode, Pieces;
    var front := [Value(XT_S_QUOTE), Value(|t|)];
    EmitTwo(m, k, XT_S_QUOTE, |t|);
    TextWrites(Written(m, k, front), k + 2, t);
    WrittenTwice(m, k, front, Pieces(t));
  }

  lemma PushThenPop(c: Core, x: u32)
    requires !c.abort
    ensures |c.ds| < STACK_CELLS ==> Pop(Push(c, x)) == (c, x)
    ensures |c.rs| < STACK_CELLS ==> RPop(RPush(c, x)) == (c, x)
  {
    assert (c.ds + [x])[..|c.ds|] == c.ds;
    assert (c.rs + [x])[..|c.rs|] == c.rs;
  }

  /** IF: two cells, and the address of the operand on the return stack. */
  lemma IfWrites(m: Machine, k: int)
    requires m.Valid() && InSpi(k, 2) && m.here == Addr(k)
    ensures If(m) == Success(Written(m, k, [Value(XT_0BRANCH), Value(0)]).(core := RPush(m.core, Addr(k + 1))))
  {
    EmitTwo(m, k, XT_0BRANCH, 0);
  }

  /** An abort does not end the line: an IF behind it still compiles its two cells, but
      leaves no address. */
  lemma LineGoesOn(d: Dialect, m: Machine, k: int)
    requires m.Valid() && m.core.abort && m.core.mode == Repl && InSpi(k, 2) && m.here == Addr(k)
    ensures Interpret(d, [WPrim(Drop), WIf], m) == Success(Written(m, k, [Value(XT_0BRANCH), Value(0)]))
  {
    hide ApplyPrim, WriteCode;
    IfWrites(m, k);
    PrimAborted(Drop, m.core);
    assert [WPrim(Drop), WIf][1..] == [WIf] && [WIf][1..] == [];
  }

  /** THEN: the operand whose address is on the return stack is patched to lead here. */
  lemma ThenPatches(m: Machine, k: int, c: int, core: Core)
    requires m.Valid() && InSpi(k, 0) && m.here == Addr(k) && InSpi(c, 1) && RPop(m.core) == (core, Addr(c))
    ensures Then(m)
         == Success(m.(core := core, mem := m.mem.(ext := Put32(m.mem.ext, 4 * c, ForwardOperand(c, k)))))
  {
  }

  /** ELSE: both at once. */
  lemma ElseWrites(m: Machine, k: int, c: int, core: Core)
    requires m.Valid() && InSpi(k, 2) && m.here == Addr(k) && InSpi(c, 1) && RPop(m.core) == (core, Addr(c))
    ensures var m1 := Written(m, k, [Value(XT_BRANCH), Value(0)]);
            Else(m) == Success(m1.(core := RPush(core, Addr(k + 1)),
                                   mem := m1.mem.(ext := Put32(m1.mem.ext, 4 * c, ForwardOperand(c, k + 2)))))
  {
    hide Emit, WriteCode, Put32, RPop, RPush;
    EmitTwo(m, k, XT_BRANCH, 0);
  }

  /** UNTIL: a conditional branch whose operand leads to the address on top of the
      data stack. */
  lemma UntilWrites(d: Dialect, m: Machine, k: int, begin: int, core: Core)
    requires m.Valid() && InSpi(k, 2) && m.here == Addr(k) && m.core.mode == Compile
    requires InSpi(begin, 0) && Pop(m.core) == (core, Addr(begin))
    ensures var code := [Value(XT_0BRANCH), Value(LoopOperand(d, begin, k + 1))];
            Until(d, m) == Success(Written(m, k, code).(core := core))
  {
    EmitTwo(m.(core := core), k, XT_0BRANCH, LoopOperand(d, begin, k + 1));
  }

  // ---- the compile theorem --------------------------------------------------

  /** A machine in the middle of a definition, with the frontier at cell k and room
      for p. */
  ghost predicate Ready(p: Prog, m: Machine, k: int) {
    && m.Valid() && TextsFit(p)
    && m.core.mode == Compile && !m.core.abort
    && m.here == Addr(k) && InSpi(k, Slots(p))
  }

  predicate NestingFits(p: Prog, c: Core) {
    |c.ds| + LoopDepth(p) <= STACK_CELLS && |c.rs| + IfDepth(p) <= STACK_CELLS
  }

  /** What a program asks for is what its parts ask for. */
  lemma PartsReady(p: Prog)
    ensures p.Seq? ==>
              TextsFit(p) == (TextsFit(p.first) && TextsFit(p.second)) && Slots(p) == Slots(p.first) + Slots(p.second)
    ensures p.IfThen? ==> TextsFit(p) == TextsFit(p.yes) && Slots(p) == 2 + Slots(p.yes)
    ensures p.IfElse? ==>
              TextsFit(p) == (TextsFit(p.yes) && TextsFit(p.no)) && Slots(p) == 4 + Slots(p.yes) + Slots(p.no)
    ensures p.Loop? ==> TextsFit(p) == TextsFit(p.body) && Slots(p) == Slots(p.body) + 2
  {
    hide Pieces;
  }

  lemma PartsNest(p: Prog)
    ensures p.Seq? ==>
              && LoopDepth(p) == Max(LoopDepth(p.first), LoopDepth(p.second))
              && IfDepth(p) == Max(IfDepth(p.first), IfDepth(p.second))
    ensures p.IfThen? ==> LoopDepth(p) == LoopDepth(p.yes) && IfDepth(p) == 1 + IfDepth(p.yes)
    ensures p.IfElse? ==>
              && LoopDepth(p) == Max(LoopDepth(p.yes), LoopDepth(p.no))
              && IfDepth(p) == 1 + Max(IfDepth(p.yes), IfDepth(p.no))
    ensures p.Loop? ==> LoopDepth(p) == 1 + LoopDepth(p.body) && IfDepth(p) == IfDepth(p.body)
  {
    hide Max;
  }

  lemma PartsText(p: Prog)
    ensures p.Seq? ==> Text(p) == Text(p.first) + Text(p.second)
    ensures p.IfThen? ==> Text(p) == [WIf] + Text(p.yes) + [WThen]
    ensures p.IfElse? ==> Text(p) == [WIf] + Text(p.yes) + [WElse] + Text(p.no) + [WThen]
    ensures p.Loop? ==> Text(p) == [WBegin] + Text(p.body) + [WUntil]
  {
  }

  /** Interpreting the words of b between one word before and one after. */
  lemma InterpretsAround(d: Dialect, a: seq<Word>, b: seq<Word>, w: Word,
                         m: Machine, m1: Machine, m2: Machine, m3: Machine)
    requires Interprets(d, a, m, m1) && Interprets(d, b, m1, m2) && Interprets(d, [w], m2, m3)
    ensures Interprets(d, a + b + [w], m, m3)
  {
    InterpretsJoin(d, a, b, m, m1, m2);
    InterpretsJoin(d, a + b, [w], m, m2, m3);
  }

  /** The machine at the start of a branch: the operand of the branch before it is
      its last cell, and that cell's address is on the return stack. */
  function InBranch(m: Machine, k: int, code: seq<Slot>): (r: Machine)
    requires m.Valid() && InSpi(k, |code|) && PiecesSmall(code) && |code| > 0
    ensures r.Valid()
  {
    Written(m, k, code).(core := RPush(m.core, Addr(k + |code| - 1)))
  }

  const IF_HEAD: seq<Slot> := [Value(XT_0BRANCH), Value(0)]
  const ELSE_HEAD: seq<Slot> := [Value(XT_BRANCH), Value(0)]

  lemma IfThenDone(m: Machine, k: int, body: seq<Slot>)
    requires m.Valid() && !m.core.abort && |m.core.rs| < STACK_CELLS && InSpi(k, 2 + |body|) && PiecesSmall(body)
    ensures PiecesSmall(IfThenCode(k, body))
    ensures Then(Written(InBranch(m, k, IF_HEAD), k + 2, body)) == Success(Written(m, k, IfThenCode(k, body)))
  {
    hide Then, WriteCode;
    var m2 := Written(InBranch(m, k, IF_HEAD), k + 2, body);
    var end := k + 2 + |body|;
    PushThenPop(m.core, Addr(k + 1));
    ThenPatches(m2, end, k + 1, m.core);
    WriteAppend(m.mem.ext, k, IF_HEAD, body);
    PatchCode(m.mem.ext, k, IF_HEAD + body, 1, ForwardOperand(k + 1, end));
    assert IfThenCode(k, body) == (IF_HEAD + body)[1 := Value(ForwardOperand(k + 1, end))];
  }

  lemma ElseDone(m: Machine, k: int, yes: seq<Slot>)
    requires m.Valid() && !m.core.abort && |m.core.rs| < STACK_CELLS && InSpi(k, 4 + |yes|) && PiecesSmall(yes)
    ensures PiecesSmall(ElseCode(k, yes) + ELSE_HEAD)
    ensures Else(Written(InBranch(m, k, IF_HEAD), k + 2, yes)) == Success(InBranch(m, k, ElseCode(k, yes) + ELSE_HEAD))
  {
    hide Else, WriteCode;
    var m2 := Written(InBranch(m, k, IF_HEAD), k + 2, yes);
    var mid := k + 2 + |yes|;
    var op := ForwardOperand(k + 1, mid + 2);
    PushThenPop(m.core, Addr(k + 1));
    ElseWrites(m2, mid, k + 1, m.core);
    WriteAppend(m.mem.ext, k, IF_HEAD, yes);
    WriteAppend(m.mem.ext, k, IF_HEAD + yes, ELSE_HEAD);
    PatchCode(m.mem.ext, k, IF_HEAD + yes + ELSE_HEAD, 1, op);
    assert ElseCode(k, yes) + ELSE_HEAD == (IF_HEAD + yes + ELSE_HEAD)[1 := Value(op)];
  }

  lemma IfElseDone(m: Machine, k: int, yes: seq<Slot>, no: seq<Slot>)
    requires m.Valid() && !m.core.abort && |m.core.rs| < STACK_CELLS && InSpi(k, 4 + |yes| + |no|)
    requires PiecesSmall(yes) && PiecesSmall(no)
    ensures PiecesSmall(ElseCode(k, yes) + ELSE_HEAD) && PiecesSmall(IfElseCode(k, yes, no))
    ensures Then(Written(InBranch(m, k, ElseCode(k, yes) + ELSE_HEAD), k + 4 + |yes|, no))
         == Success(Written(m, k, IfElseCode(k, yes, no)))
  {
    hide Then, WriteCode;
    var front := ElseCode(k, yes);
    var c, end := k + 3 + |yes|, k + 4 + |yes| + |no|;
    var op := ForwardOperand(c, end);
    var m4 := Written(InBranch(m, k, front + ELSE_HEAD), c + 1, no);
    PushThenPop(m.core, Addr(c));
    ThenPatches(m4, end, c, m.core);
    WriteAppend(m.mem.ext, k, front + ELSE_HEAD, no);
    PatchCode(m.mem.ext, k, front + ELSE_HEAD + no, |front| + 1, op);
    assert IfElseCode(k, yes, no) == (front + ELSE_HEAD + no)[|front| + 1 := Value(op)];
  }

  lemma LoopDone(d: Dialect, m: Machine, k: int, body: seq<Slot>)
    requires m.Valid() && !m.core.abort && |m.core.ds| < STACK_CELLS && m.core.mode == Compile
    requires InSpi(k, 2 + |body|) && PiecesSmall(body) && m.here == Addr(k)
    ensures PiecesSmall(LoopCode(d, k, body))
    ensures Until(d, Written(Begin(m), k, body)) == Success(Written(m, k, LoopCode(d, k, body)))
  {
    PushThenPop(m.core, Addr(k));
    UntilWrites(d, Written(Begin(m), k, body), k + |body|, k, m.core);
    WriteAppend(m.mem.ext, k, body, [Value(XT_0BRANCH), Value(LoopOperand(d, k, k + |body| + 1))]);
  }

  /** What compiling p at cell k must do, with its code named. */
  ghost predicate Compiles(d: Dialect, p: Prog, m: Machine, k: int, code: seq<Slot>) {
    && code == Code(d, k, p) && |code| == Slots(p) && PiecesSmall(code)
    && m.Valid() && InSpi(k, |code|)
    && Interprets(d, Text(p), m, Written(m, k, code))
  }

  lemma CompileAtom(d: Dialect, p: Prog, m: Machine, k: int)
    requires Ready(p, m, k) && (p.Nothing? || p.Lit? || p.Call? || p.Str?)
    ensures Compiles(d, p, m, k, Code(d, k, p))
  {
    var code := Code(d, k, p);
    match p
    case Nothing => InterpretsNone(d, m);
    case Lit(v) =>
      EmitTwo(m, k, XT_LIT, v);
      InterpretsOne(d, WNumber(v), m, Written(m, k, code));
    case Call(w) =>
      EmitWrites(m, k, XtOf(d, w));
      InterpretsOne(d, WPrim(w), m, Written(m, k, code));
    case Str(t) =>
      QuoteWrites(m, k, t);
      InterpretsOne(d, WString(t), m, Written(m, k, code));
  }

  /** Interpreting the words of p in the middle of a definition leaves both stacks
      as they were, moves the frontier by exactly the size of the code, and writes
      the code of p with every branch operand patched. */
  lemma {:induction false} CompileEmits(d: Dialect, p: Prog, m: Machine, k: int) returns (code: seq<Slot>)
    requires Ready(p, m, k) && NestingFits(p, m.core)
    ensures Compiles(d, p, m, k, code)
    decreases p, 1
  {
    match p
    case Seq(a, b) => code := CompileSeq(d, a, b, m, k);
    case IfThen(t) => code := CompileIfThen(d, t, m, k);
    case IfElse(t, e) => code := CompileIfElse(d, t, e, m, k);
    case Loop(b) => code := CompileLoop(d, b, m, k);
    case _ =>
      CompileAtom(d, p, m, k);
      code := Code(d, k, p);
  }

  lemma {:induction false} CompileSeq(d: Dialect, a: Prog, b: Prog, m: Machine, k: int) returns (code: seq<Slot>)
    requires Ready(Seq(a, b), m, k) && NestingFits(Seq(a, b), m.core)
    ensures Compiles(d, Seq(a, b), m, k, code)
    decreases Seq(a, b), 0
  {
    hide Text, Code, Slots, TextsFit, LoopDepth, IfDepth, Interprets, WriteCode;
    PartsReady(Seq(a, b));
    PartsNest(Seq(a, b));
    PartsText(Seq(a, b));
    CodeShape(d, k, Seq(a, b));
    var codeA := CompileEmits(d, a, m, k);
    var codeB := CompileEmits(d, b, Written(m, k, codeA), k + Slots(a));
    code := codeA + codeB;
    WrittenTwice(m, k, codeA, codeB);
    InterpretsJoin(d, Text(a), Text(b), m, Written(m, k, codeA), Written(m, k, code));
  }

  lemma {:induction false} CompileIfThen(d: Dialect, t: Prog, m: Machine, k: int) returns (code: seq<Slot>)
    requires Ready(IfThen(t), m, k) && NestingFits(IfThen(t), m.core)
    ensures Compiles(d, IfThen(t), m, k, code)
    decreases IfThen(t), 0
  {
    hide Text, Code, Slots, TextsFit, LoopDepth, IfDepth, Interprets, WriteCode, If, Then, IfThenCode;
    PartsReady(IfThen(t));
    PartsNest(IfThen(t));
    PartsText(IfThen(t));
    CodeShape(d, k, IfThen(t));
    IfWrites(m, k);
    var m1 := InBranch(m, k, IF_HEAD);
    InterpretsOne(d, WIf, m, m1);
    var body := CompileEmits(d, t, m1, k + 2);
    code := IfThenCode(k, body);
    var m2 := Written(m1, k + 2, body);
    IfThenDone(m, k, body);
    InterpretsOne(d, WThen, m2, Written(m, k, code));
    InterpretsAround(d, [WIf], Text(t), WThen, m, m1, m2, Written(m, k, code));
  }

  lemma {:induction false} CompileIfElse(d: Dialect, t: Prog, e: Prog, m: Machine, k: int) returns (code: seq<Slot>)
    requires Ready(IfElse(t, e), m, k) && NestingFits(IfElse(t, e), m.core)
    ensures Compiles(d, IfElse(t, e), m, k, code)
    decreases IfElse(t, e), 0
  {
    hide Text, Code, Slots, TextsFit, LoopDepth, IfDepth, Interprets, WriteCode, Then, ElseCode, IfElseCode;
    PartsReady(IfElse(t, e));
    PartsNest(IfElse(t, e));
    PartsNest(IfThen(t));
    PartsText(IfElse(t, e));
    CodeShape(d, k, IfElse(t, e));
    var yes := CompileYes(d, t, e, m, k);
    var m3 := InBranch(m, k, ElseCode(k, yes) + ELSE_HEAD);
    var no := CompileEmits(d, e, m3, k + 4 + Slots(t));
    code := IfElseCode(k, yes, no);
    var m4 := Written(m3, k + 4 + Slots(t), no);
    IfElseDone(m, k, yes, no);
    InterpretsOne(d, WThen, m4, Written(m, k, code));
    InterpretsAround(d, [WIf] + Text(t) + [WElse], Text(e), WThen, m, m3, m4, Written(m, k, code));
  }

  lemma {:induction false} CompileYes(d: Dialect, t: Prog, e: Prog, m: Machine, k: int) returns (yes: seq<Slot>)
    requires Ready(IfElse(t, e), m, k) && NestingFits(IfThen(t), m.core)
    ensures yes == Code(d, k + 2, t) && |yes| == Slots(t)
    ensures PiecesSmall(ElseCode(k, yes) + ELSE_HEAD) && PiecesSmall(yes)
    ensures Interprets(d, [WIf] + Text(t) + [WElse], m, InBranch(m, k, ElseCode(k, yes) + ELSE_HEAD))
    decreases t, 2
  {
    hide Text, Code, Slots, TextsFit, LoopDepth, IfDepth, Interprets, WriteCode, If, Else, ElseCode;
    PartsReady(IfElse(t, e));
    PartsNest(IfThen(t));
    IfWrites(m, k);
    var m1 := InBranch(m, k, IF_HEAD);
    InterpretsOne(d, WIf, m, m1);
    yes := CompileEmits(d, t, m1, k + 2);
    var m2 := Written(m1, k + 2, yes);
    ElseDone(m, k, yes);
    var m3 := InBranch(m, k, ElseCode(k, yes) + ELSE_HEAD);
    InterpretsOne(d, WElse, m2, m3);
    InterpretsAround(d, [WIf], Text(t), WElse, m, m1, m2, m3);
  }

  lemma {:induction false} CompileLoop(d: Dialect, b: Prog, m: Machine, k: int) returns (code: seq<Slot>)
    requires Ready(Loop(b), m, k) && NestingFits(Loop(b), m.core)
    ensures Compiles(d, Loop(b), m, k, code)
    decreases Loop(b), 0
  {
    hide Text, Code, Slots, TextsFit, LoopDepth, IfDepth, Interprets, WriteCode, Until, LoopCode;
    PartsReady(Loop(b));
    PartsNest(Loop(b));
    PartsText(Loop(b));
    CodeShape(d, k, Loop(b));
    var m1 := Begin(m);
    InterpretsOne(d, WBegin, m, m1);
    var body := CompileEmits(d, b, m1, k);
    code := LoopCode(d, k, body);
    var m2 := Written(m1, k, body);
    LoopDone(d, m, k, body);
    InterpretsOne(d, WUntil, m2, Written(m, k, code));
    InterpretsAround(d, [WBegin], Text(b), WUntil, m, m1, m2, Written(m, k, code));
  }
}
