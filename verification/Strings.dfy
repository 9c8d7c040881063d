/** The string literals of S" and .": escaping, the parser's loop, and the trip of a
    text from the source line through compiled code to the running program. */
module Strings {
  import opened Words
  import opened Bus
  import opened Stacks
  import opened Threaded
  import opened Compiler
  import opened Simulation

  const SPACE: u8 := 32
  const QUOTE: u8 := 34
  const BACKSLASH: u8 := 92
  const FORTH_MAX_STRING_LEN: int := 255

  const XT_P_DOT_QUOTE: u32 := 42

  /** A C string: no byte of it is 0, and the byte behind it reads as 0. */
  predicate NulFree(s: seq<u8>) {
    0 !in s
  }

  function CharAt(line: seq<u8>, p: nat): u8 {
    if p < |line| then line[p] else 0
  }

  predicate EscapedAt(line: seq<u8>, p: nat) {
    CharAt(line, p) == BACKSLASH && CharAt(line, p + 1) in {QUOTE, BACKSLASH}
  }

  /** The text from p on, at most room characters, and where it ends. */
  function Scan(line: seq<u8>, p: nat, room: nat): (r: (seq<u8>, nat))
    requires p <= |line|
    ensures |r.0| <= room && p <= r.1 <= |line|
    decreases room
  {
    if p == |line| || room == 0 then ([], p)
    else if EscapedAt(line, p) then
      var (text, end) := Scan(line, p + 2, room - 1);
      ([line[p + 1]] + text, end)
    else if line[p] == QUOTE then ([], p)
    else
      var (text, end) := Scan(line, p + 1, room - 1);
      ([line[p]] + text, end)
  }

  /** The parsed literal and the position of the rest of the line. */
  function Parse(line: seq<u8>, p: nat): (r: (seq<u8>, nat))
    requires p <= |line|
    ensures |r.0| < STRING_BUFFER_SIZE && p <= r.1 <= |line|
  {
    var start := if CharAt(line, p) == SPACE then p + 1 else p;
    var (text, end) := Scan(line, start, FORTH_MAX_STRING_LEN);
    (text, if CharAt(line, end) == QUOTE then end + 1 else end)
  }

  lemma ScanStep(line: seq<u8>, p: nat, room: nat, done: seq<u8>)
    requires p < |line| && room > 0 && NulFree(line)
    ensures !EscapedAt(line, p) && line[p] == QUOTE ==> Scan(line, p, room) == ([], p)
    ensures EscapedAt(line, p) || line[p] != QUOTE ==>
              var k := if EscapedAt(line, p) then p + 1 else p;
              && k < |line|
              && done + Scan(line, p, room).0 == done + [line[k]] + Scan(line, k + 1, room - 1).0
              && Scan(line, p, room).1 == Scan(line, k + 1, room - 1).1
  {
  }

  lemma ScanEnd(line: seq<u8>, p: nat, room: nat)
    requires p <= |line| && (p == |line| || room == 0 || line[p] == QUOTE)
    ensures Scan(line, p, room) == ([], p)
  {
  }

  /** The parser: a loop over the line that fills a fixed buffer. */
  method ParseQuoted(line: seq<u8>, start: nat) returns (text: seq<u8>, next: nat)
    requires NulFree(line) && start <= |line|
    ensures (text, next) == Parse(line, start)
  {
    hide Scan;
    var p: nat := start;
    if CharAt(line, p) == SPACE {
      p := p + 1;
    }
    ghost var whole := Scan(line, p, FORTH_MAX_STRING_LEN);
    var strBuf := new u8[STRING_BUFFER_SIZE];
    var len: nat := 0;
    while CharAt(line, p) != 0 && len < FORTH_MAX_STRING_LEN
      invariant p <= |line| && len <= FORTH_MAX_STRING_LEN
      invariant whole.0 == strBuf[..len] + Scan(line, p, FORTH_MAX_STRING_LEN - len).0
      invariant whole.1 == Scan(line, p, FORTH_MAX_STRING_LEN - len).1
      decreases FORTH_MAX_STRING_LEN - len
    {
      ScanStep(line, p, FORTH_MAX_STRING_LEN - len, strBuf[..len]);
      ghost var done := strBuf[..len];
      if CharAt(line, p) == BACKSLASH && (CharAt(line, p + 1) == QUOTE || CharAt(line, p + 1) == BACKSLASH) {
        p := p + 1;
        strBuf[len] := line[p];
        assert strBuf[..len + 1] == done + [line[p]];
        len, p := len + 1, p + 1;
        continue;
      }
      if line[p] == QUOTE {
        break;
      }
      strBuf[len] := line[p];
      assert strBuf[..len + 1] == done + [line[p]];
      len, p := len + 1, p + 1;
    }
    ScanEnd(line, p, FORTH_MAX_STRING_LEN - len);
    assert strBuf[..len] + [] == strBuf[..len];
    text, next := strBuf[..len], p;
    if CharAt(line, p) == QUOTE {
      next := p + 1;
    }
  }

  // ---- what the parser makes of any line ------------------------------------

  /** A backslash with the quote or backslash behind it, or one other character. */
  datatype Unit = Escaped(c: u8) | Plain(c: u8)

  function Raw(u: Unit): (r: seq<u8>)
    ensures |r| > 0
  {
    match u
    case Escaped(c) => [92, c]
    case Plain(c) => [c]
  }

  function RawText(us: seq<Unit>): seq<u8> {
    if us == [] then [] else Raw(us[0]) + RawText(us[1..])
  }

  function Meant(us: seq<Unit>): (r: seq<u8>)
    ensures |r| == |us|
  {
    seq(|us|, i requires 0 <= i < |us| => us[i].c)
  }

  /** The units of a raw text with after behind it: only quotes and backslashes are
      escaped, no quote stands alone, and a lone backslash has neither behind it. */
  ghost predicate UnitsOk(us: seq<Unit>, after: seq<u8>) {
    us != [] ==>
      && UnitsOk(us[1..], after)
      && match us[0]
         case Escaped(c) => c == 34 || c == 92
         case Plain(c) => c != 0 && c != 34 && (c == 92 ==> !StartsSpecial(RawText(us[1..]) + after))
  }

  predicate StartsSpecial(s: seq<u8>) {
    s != [] && (s[0] == 34 || s[0] == 92)
  }

  /** A raw text ends at the end of the line or before a quote. */
  predicate Closed(after: seq<u8>) {
    after == [] || after[0] == 34
  }

  /** The scan takes one unit after the other, as many as there is room for. */
  lemma {:induction false} ScanUnits(before: seq<u8>, us: seq<Unit>, after: seq<u8>, room: nat)
    requires UnitsOk(us, after) && Closed(after)
    ensures var n := if |us| <= room then |us| else room;
            var line, end := before + RawText(us) + after, |before + RawText(us[..n])|;
            && end <= |line| && line[end..] == RawText(us[n..]) + after
            && Scan(line, |before|, room) == (Meant(us[..n]), end)
    decreases |us|
  {
    hide Scan, RawText, Meant;
    if us == [] || room == 0 {
      ScanNoUnit(before, us, after, room);
    } else {
      var n := if |us| <= room then |us| else room;
      var u, rest := us[0], us[1..];
      assert us == [u] + rest && us[..n] == [u] + rest[..n - 1] && us[n..] == rest[n - 1..];
      RawCons(u, rest);
      RawCons(u, rest[..n - 1]);
      MeantCons(u, rest[..n - 1]);
      Regroup3(before, Raw(u), RawText(rest), after);
      Regroup3(before, Raw(u), RawText(rest[..n - 1]), after);
      ScanUnits(before + Raw(u), rest, after, room - 1);
      ScanOne(before, us, after, room);
    }
  }

  lemma Regroup3(a: seq<u8>, b: seq<u8>, c: seq<u8>, d: seq<u8>)
    ensures a + (b + c) == a + b + c && a + (b + c) + d == a + b + c + d && a + b + (c + d) == a + b + c + d
  {
  }

  lemma MeantCons(u: Unit, us: seq<Unit>)
    ensures Meant([u] + us) == [u.c] + Meant(us)
  {
  }

  lemma RawCons(u: Unit, us: seq<Unit>)
    ensures RawText([u] + us) == Raw(u) + RawText(us)
  {
    assert ([u] + us)[1..] == us;
  }

  lemma ScanNoUnit(before: seq<u8>, us: seq<Unit>, after: seq<u8>, room: nat)
    requires (us == [] || room == 0) && Closed(after)
    ensures RawText(us[..0]) == [] && Meant(us[..0]) == [] && us[0..] == us
    ensures var line := before + RawText(us) + after;
            && line[|before|..] == RawText(us) + after
            && Scan(line, |before|, room) == ([], |before|) && |before + RawText(us[..0])| == |before|
  {
    var line := before + RawText(us) + after;
    assert us == [] && after != [] ==> line[|before|] == after[0];
  }

  lemma ScanOne(before: seq<u8>, us: seq<Unit>, after: seq<u8>, room: nat)
    requires us != [] && room > 0 && UnitsOk(us, after)
    ensures var line := before + RawText(us) + after;
            var p := |before + Raw(us[0])|;
            p <= |line| && Scan(line, |before|, room)
                         == ([us[0].c] + Scan(line, p, room - 1).0, Scan(line, p, room - 1).1)
  {
    var u, tail := us[0], RawText(us[1..]) + after;
    hide Scan;
    assert us == [u] + us[1..];
    RawCons(u, us[1..]);
    hide RawText;
    Regroup3(before, Raw(u), RawText(us[1..]), after);
    ScanRaw(before, u, tail, room);
  }

  lemma ScanRaw(before: seq<u8>, u: Unit, tail: seq<u8>, room: nat)
    requires room > 0
    requires match u
             case Escaped(c) => c == 34 || c == 92
             case Plain(c) => c != 0 && c != 34 && (c == 92 ==> !StartsSpecial(tail))
    ensures var line, p := before + Raw(u) + tail, |before + Raw(u)|;
            Scan(line, |before|, room) == ([u.c] + Scan(line, p, room - 1).0, Scan(line, p, room - 1).1)
  {
    var line := before + Raw(u) + tail;
    assert line[|before|] == Raw(u)[0];
    if u.Escaped? {
      assert line[|before| + 1] == u.c;
    } else {
      assert tail != [] ==> line[|before| + 1] == tail[0];
    }
  }

  /** For every line: behind the separator, if there is one, the units up to the closing
      quote or the end of the line parse to the characters they mean, at most 255 of
      them, and the rest of the line is what follows. */
  lemma ParseUnits(before: seq<u8>, sep: seq<u8>, us: seq<Unit>, after: seq<u8>)
    requires UnitsOk(us, after) && Closed(after)
    requires sep == [32] || (sep == [] && (RawText(us) + after == [] || (RawText(us) + after)[0] != 32))
    ensures var line := before + sep + RawText(us) + after;
            var (text, next) := Parse(line, |before|);
            if |us| <= 255 then text == Meant(us) && line[next..] == if after == [] then [] else after[1..]
            else text == Meant(us[..255]) && line[next..] == RawText(us[255..]) + after
  {
    hide *;
    ParseUpTo(before, sep, us, after);
    if |us| <= 255 {
      assert us[..|us|] == us && us[|us|..] == [];
      RestIsAfter(after);
    } else {
      RestIsRaw(us, after, 255);
    }
  }

  lemma ParseUpTo(before: seq<u8>, sep: seq<u8>, us: seq<Unit>, after: seq<u8>)
    requires UnitsOk(us, after) && Closed(after)
    requires sep == [32] || (sep == [] && (RawText(us) + after == [] || (RawText(us) + after)[0] != 32))
    ensures var n := if |us| <= 255 then |us| else 255;
            var line, rest := before + sep + RawText(us) + after, RawText(us[n..]) + after;
            var (text, next) := Parse(line, |before|);
            text == Meant(us[..n]) && line[next..] == if rest != [] && rest[0] == 34 then rest[1..] else rest
  {
    var n := if |us| <= 255 then |us| else 255;
    StartBehind(before, sep, RawText(us) + after);
    hide *;
    Regroup3(before, sep, RawText(us), after);
    ScanUnits(before + sep, us, after, 255);
    var line, end := before + sep + RawText(us) + after, |before + sep + RawText(us[..n])|;
    ParseFrom(line, |before|, |before + sep|, Meant(us[..n]), end, RawText(us[n..]) + after);
  }

  lemma ParseFrom(line: seq<u8>, p: nat, start: nat, text: seq<u8>, end: nat, rest: seq<u8>)
    requires p <= |line| && start == (if CharAt(line, p) == SPACE then p + 1 else p) && start <= |line|
    requires Scan(line, start, FORTH_MAX_STRING_LEN) == (text, end) && end <= |line| && line[end..] == rest
    ensures var (text', next) := Parse(line, p);
            text' == text && line[next..] == if rest != [] && rest[0] == 34 then rest[1..] else rest
  {
    hide Scan;
    TailOf(line, end, rest);
  }

  lemma StartBehind(before: seq<u8>, sep: seq<u8>, rest: seq<u8>)
    requires sep == [32] || (sep == [] && (rest == [] || rest[0] != 32))
    ensures CharAt(before + sep + rest, |before|) == SPACE <==> sep == [32]
  {
  }

  lemma TailOf(line: seq<u8>, end: nat, rest: seq<u8>)
    requires end <= |line| && line[end..] == rest
    ensures CharAt(line, end) == if rest == [] then 0 else rest[0]
    ensures rest != [] ==> line[end + 1..] == rest[1..]
    ensures rest == [] ==> end == |line|
  {
    assert rest != [] ==> line[end] == line[end..][0] && line[end + 1..] == line[end..][1..];
  }

  lemma RestIsRaw(us: seq<Unit>, after: seq<u8>, n: nat)
    requires UnitsOk(us, after) && n < |us|
    ensures RawText(us[n..]) + after != [] && (RawText(us[n..]) + after)[0] != 34
  {
    UnitsFrom(us, after, n);
    assert us[n..][0] == us[n];
    assert RawText(us[n..]) == Raw(us[n]) + RawText(us[n..][1..]);
  }

  lemma RestIsAfter(after: seq<u8>)
    ensures RawText([]) + after == after && (Closed(after) ==> after == [] || after[0] == 34)
  {
  }

  lemma {:induction false} UnitsFrom(us: seq<Unit>, after: seq<u8>, n: nat)
    requires UnitsOk(us, after) && n < |us|
    ensures Raw(us[n])[0] != 34
    decreases n
  {
    if n == 0 {
    } else {
      UnitsFrom(us[1..], after, n - 1);
    }
  }

  /** Every NUL-free text has such units, so the parse of every line is settled. */
  lemma {:induction false} UnitsOf(text: seq<u8>) returns (us: seq<Unit>, after: seq<u8>)
    requires NulFree(text)
    ensures text == RawText(us) + after && UnitsOk(us, after) && Closed(after)
    decreases |text|
  {
    us, after := [], text;
    if !Closed(text) {
      var n := if text[0] == 92 && StartsSpecial(text[1..]) then 2 else 1;
      var us', after' := UnitsOf(text[n..]);
      var u := if n == 2 then Escaped(text[1]) else Plain(text[0]);
      us, after := [u] + us', after';
      RawCons(u, us');
      assert us[1..] == us' && text == Raw(u) + text[n..];
    }
  }

  /** How a text is written between the quotes. */
  function Escape(text: seq<u8>): seq<u8> {
    if text == [] then []
    else (if text[0] in {QUOTE, BACKSLASH} then [BACKSLASH, text[0]] else [text[0]]) + Escape(text[1..])
  }

  /** A line with the escaped text in it, closed by a quote. */
  function Quoted(before: seq<u8>, text: seq<u8>, rest: seq<u8>): seq<u8> {
    before + Escape(text) + [QUOTE] + rest
  }

  lemma EscapeCons(c: u8, tail: seq<u8>, unit: seq<u8>)
    requires unit == if c in {QUOTE, BACKSLASH} then [BACKSLASH, c] else [c]
    ensures Escape([c] + tail) == unit + Escape(tail)
  {
    assert ([c] + tail)[1..] == tail;
  }

  lemma ScanUnit(line: seq<u8>, before: seq<u8>, unit: seq<u8>, c: u8, room: nat)
    requires c != 0 && unit == if c in {QUOTE, BACKSLASH} then [BACKSLASH, c] else [c]
    requires before + unit <= line && room > 0
    ensures var (text, end) := Scan(line, |before + unit|, room - 1); Scan(line, |before|, room) == ([c] + text, end)
  {
    assert (before + unit)[|before|] == unit[0];
    assert |unit| == 2 ==> (before + unit)[|before| + 1] == unit[1];
  }

  /** One character further: its escape moves to the front. */
  lemma QuotedCons(before: seq<u8>, c: u8, tail: seq<u8>, rest: seq<u8>, unit: seq<u8>)
    requires unit == if c in {QUOTE, BACKSLASH} then [BACKSLASH, c] else [c]
    ensures Quoted(before, [c] + tail, rest) == Quoted(before + unit, tail, rest)
    ensures before + unit <= Quoted(before, [c] + tail, rest)
  {
    EscapeCons(c, tail, unit);
    hide Escape;
  }

  lemma PrefixCons(before: seq<u8>, c: u8, kept: seq<u8>, unit: seq<u8>)
    requires unit == if c in {QUOTE, BACKSLASH} then [BACKSLASH, c] else [c]
    ensures before + Escape([c] + kept) == before + unit + Escape(kept)
  {
    EscapeCons(c, kept, unit);
    hide Escape;
  }

  lemma ScanStops(before: seq<u8>, text: seq<u8>, rest: seq<u8>, room: nat)
    requires text == [] || room == 0
    ensures var line := Quoted(before, text, rest);
            |before| <= |line| && Scan(line, |before|, room) == ([], |before|) && Escape([]) == []
  {
    var line := Quoted(before, text, rest);
    assert text == [] ==> line[|before|] == QUOTE;
  }

  /** Scanning an escaped text gives the text back, up to the room there is. */
  lemma {:induction false} ScanEscaped(before: seq<u8>, text: seq<u8>, rest: seq<u8>, room: nat)
    requires NulFree(text)
    ensures var line := Quoted(before, text, rest);
            var n := if |text| <= room then |text| else room;
            && |before + Escape(text[..n])| <= |line|
            && Scan(line, |before|, room) == (text[..n], |before + Escape(text[..n])|)
    decreases |text|
  {
    hide Scan, Escape, Quoted;
    var n := if |text| <= room then |text| else room;
    if n == 0 {
      ScanStops(before, text, rest, room);
      assert text[..n] == [];
    } else {
      var c, tail := text[0], text[1..];
      var unit := if c in {QUOTE, BACKSLASH} then [BACKSLASH, c] else [c];
      assert text == [c] + tail && text[..n] == [c] + tail[..n - 1];
      QuotedCons(before, c, tail, rest, unit);
      PrefixCons(before, c, tail[..n - 1], unit);
      ScanEscaped(before + unit, tail, rest, room - 1);
      ScanUnit(Quoted(before, text, rest), before, unit, c, room);
    }
  }

  /** Parsing an escaped text behind its separator gives the text and the rest of the
      line back if and only if the text has at most 255 characters; a longer one is
      cut there, and the parser stops inside it. */
  lemma ParseEscaped(text: seq<u8>, rest: seq<u8>)
    requires NulFree(text)
    ensures var line := Quoted([SPACE], text, rest);
            var (parsed, next) := Parse(line, 0);
            && (parsed == text && line[next..] == rest <==> |text| <= FORTH_MAX_STRING_LEN)
            && (|text| > FORTH_MAX_STRING_LEN ==> parsed == text[..FORTH_MAX_STRING_LEN])
  {
    var line := Quoted([SPACE], text, rest);
    ScanEscaped([SPACE], text, rest, FORTH_MAX_STRING_LEN);
    if |text| <= FORTH_MAX_STRING_LEN {
      var end := |[SPACE] + Escape(text)|;
      assert text[..|text|] == text;
      assert line[end] == QUOTE && line[end + 1..] == rest;
    }
  }

  // ---- from the line to the running program ---------------------------------

  /** The bytes of a text stand from cell k on. */
  ghost predicate HoldsText(mem: Memory, k: int, text: seq<u8>) {
    mem.Valid() && InSpi(k, 0) && LoadBytes(mem, Addr(k), |text|) == Success(text)
  }

  lemma TextStands(mem: Memory, k: int, text: seq<u8>)
    requires mem.Valid() && InSpi(k, |Pieces(text)|) && |text| < STRING_BUFFER_SIZE && Matches(mem.ext, k, Pieces(text))
    ensures HoldsText(mem, k, text)
  {
    hide Pieces, Matches;
    PiecesFill(text);
    MatchesPieces(mem.ext, k, text);
    LoadBytesAt(mem, Addr(k), |text|);
  }

  /** For every text of at most 255 characters: escaped behind S", parsed, compiled and
      run, it puts the address and the length of its own bytes on the stack, and the
      ip lands on the frontier the compiler left. */
  lemma StringRoundTrip(d: Dialect, text: seq<u8>, rest: seq<u8>, m: Machine, k: int, c: Core) returns (m': Machine)
    requires NulFree(text) && |text| <= FORTH_MAX_STRING_LEN
    requires Ready(Str(text), m, k) && Runnable(c) && |c.ds| + 2 <= STACK_CELLS
    ensures Quote(m, Parse(Quoted([SPACE], text, rest), 0).0) == Success(m')
    ensures m'.mem.Valid() && HoldsText(m'.mem, k + 2, text)
    ensures Step(d, m'.mem, c, Addr(k)) == At(c.(ds := c.ds + [Addr(k + 2), |text|]), m'.here)
  {
    hide Parse, Quoted, Pieces, Step, WriteCode, Emit, Quote;
    ParseEscaped(text, rest);
    QuoteWrites(m, k, text);
    m' := Written(m, k, StrCode(text));
    WriteMeaning(m.mem.ext, k, StrCode(text));
    MatchesAppend(m'.mem.ext, k, [Value(XT_S_QUOTE), Value(Wrap(|text|))], Pieces(text));
    TextStands(m'.mem, k + 2, text);
    StrStep(d, m'.mem, text, k, c);
  }

  /** While compiling, a text that does not fit before the end of the SPI-RAM is accepted
      without an abort and goes on at its front, where the first header of the heap is. */
  lemma QuoteWithoutRoom(m: Machine, text: seq<u8>, k: int)
    requires m.Valid() && m.core.mode == Compile && m.here == Addr(k) && InSpi(k, 2) && |text| < STRING_BUFFER_SIZE
    ensures var r := Quote(m, text);
            var room := EXT_SIZE - 4 * (k + 2);
            && r.Success? && r.value.core == m.core
            && forall j | 0 <= j < |text| - room :: r.value.mem.ext[j] == text[room + j]
  {
    hide RingStore, Put32;
    WrapIs(Addr(k) + 4, 0);
    WrapIs(Addr(k) + 8, 0);
    var m1 := Emit(m, XT_S_QUOTE).value;
    var m2 := Emit(m1, |text|).value;
    RingStoreWraps(m2.mem, m2.here, text);
  }

  const REPL_BUFFER: int := EXT_BASE + EXT_SIZE - STRING_BUFFER_SIZE

  /** In the REPL the text lands in the last 256 bytes of the SPI-RAM and nowhere else,
      and its address and length go on the stack if there is room for both; otherwise
      the machine aborts. */
  lemma QuoteInRepl(m: Machine, text: seq<u8>) returns (m': Machine)
    requires m.Valid() && m.core.mode == Repl && !m.core.abort && |text| < STRING_BUFFER_SIZE
    ensures Quote(m, text) == Success(m') && m' == m.(core := m'.core, mem := m'.mem) && m'.Valid()
    ensures LoadBytes(m'.mem, REPL_BUFFER, |text|) == Success(text)
    ensures m'.mem.fast == m.mem.fast
    ensures forall i | 0 <= i < EXT_SIZE - STRING_BUFFER_SIZE :: m'.mem.ext[i] == m.mem.ext[i]
    ensures m'.core == if |m.core.ds| + 2 <= STACK_CELLS then m.core.(ds := m.core.ds + [REPL_BUFFER, |text|])
                       else Abort(m.core)
  {
    hide Overwrite, RingStore, LoadBytes;
    RingStoreContiguous(m.mem, REPL_BUFFER, text);
    OverwriteSlice(m.mem.ext, EXT_SIZE - STRING_BUFFER_SIZE, text);
    m' := Quote(m, text).value;
    LoadBytesAt(m'.mem, REPL_BUFFER, |text|);
    assert m.core.ds + [REPL_BUFFER] + [|text|] == m.core.ds + [REPL_BUFFER, |text|];
  }

  /** So an escaped literal read in the REPL leaves its own bytes at the address it
      pushes. */
  lemma ReplStringRoundTrip(text: seq<u8>, rest: seq<u8>, m: Machine)
    requires NulFree(text) && |text| <= FORTH_MAX_STRING_LEN
    requires m.Valid() && m.core.mode == Repl && !m.core.abort && |m.core.ds| + 2 <= STACK_CELLS
    ensures var r := Quote(m, Parse(Quoted([SPACE], text, rest), 0).0);
            && r.Success? && r.value.Valid()
            && r.value.core.ds == m.core.ds + [REPL_BUFFER, |text|]
            && LoadBytes(r.value.mem, REPL_BUFFER, |text|) == Success(text)
  {
    hide Parse, Quoted, Quote, LoadBytes;
    ParseEscaped(text, rest);
    var _ := QuoteInRepl(m, text);
  }

  /** ." while compiling: the same cells behind its own token. */
  function DotQuote(m: Machine, text: seq<u8>): (r: Result<Machine>)
    requires m.Valid() && |text| < STRING_BUFFER_SIZE
    ensures r.Success? ==> r.value.Valid()
  {
    var m1 :- Emit(m, XT_P_DOT_QUOTE);
    var m2 :- Emit(m1, |text|);
    EmitText(m2, text)
  }

  /** The runtime primitive behind it: what it prints, and where the ip goes. */
  function RunDotQuote(mem: Memory, ip: u32): Result<(seq<u8>, u32)>
    requires mem.Valid()
  {
    match Load32(mem, ip)
    case Failure(f) => Failure(f)
    case Success(len) =>
      match LoadBytes(mem, Wrap(ip + 4), len)
      case Failure(f) => Failure(f)
      case Success(printed) => Success((printed, Wrap(Wrap(ip + 4) + AlignUp(len))))
  }

  /** ." prints its text and lands on the compiler's frontier as well. */
  lemma DotQuoteRoundTrip(text: seq<u8>, rest: seq<u8>, m: Machine, k: int) returns (m': Machine)
    requires NulFree(text) && |text| <= FORTH_MAX_STRING_LEN && Ready(Str(text), m, k)
    ensures DotQuote(m, Parse(Quoted([SPACE], text, rest), 0).0) == Success(m') && m'.mem.Valid()
    ensures Load32(m'.mem, Addr(k)) == Success(XT_P_DOT_QUOTE)
    ensures RunDotQuote(m'.mem, Addr(k + 1)) == Success((text, m'.here))
  {
    hide Parse, Quoted, Pieces, WriteCode, Emit, EmitText, Wrap, AlignUp, Load32;
    ParseEscaped(text, rest);
    var front := [Value(XT_P_DOT_QUOTE), Value(|text|)];
    var code := front + Pieces(text);
    EmitTwo(m, k, XT_P_DOT_QUOTE, |text|);
    TextWrites(Written(m, k, front), k + 2, text);
    WrittenTwice(m, k, front, Pieces(text));
    m' := Written(m, k, code);
    WriteMeaning(m.mem.ext, k, code);
    MatchesAppend(m'.mem.ext, k, front, Pieces(text));
    FetchTwo(m'.mem, k, XT_P_DOT_QUOTE, |text|);
    TextStands(m'.mem, k + 2, text);
    PiecesFill(text);
    WrapIs(Addr(k + 2 + |Pieces(text)|), 0);
  }
}
