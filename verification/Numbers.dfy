/** Numbers as tokens: what `.`, U., H., B. and Q. print, and parse_forth_number over
    the library's strtoll. */
module Numbers {
  import opened Words

  const LLONG_MAX: int := 0x7FFF_FFFF_FFFF_FFFF
  const LLONG_MIN: int := -0x8000_0000_0000_0000

  // ---- digits ---------------------------------------------------------------

  function DigitChar(d: nat): char
    requires d < 16
  {
    "0123456789ABCDEF"[d]
  }

  /** The value of a digit in bases up to 36, and 36 for anything else. */
  function DigitValue(c: char): nat {
    if '0' <= c <= '9' then c as int - '0' as int
    else if 'A' <= c <= 'Z' then c as int - 'A' as int + 10
    else if 'a' <= c <= 'z' then c as int - 'a' as int + 10
    else 36
  }

  predicate AllDigits(s: string, base: nat) {
    forall c | c in s :: DigitValue(c) < base
  }

  /** The bases a token can be in. */
  predicate Base(base: nat) {
    base == 2 || base == 10 || base == 16
  }

  function Scaled(base: nat, v: nat): nat
    requires Base(base)
  {
    if base == 2 then 2 * v else if base == 10 then 10 * v else 16 * v
  }

  /** The number that the digits spell, most significant first. */
  function Value(s: string, base: nat): nat
    requires Base(base)
  {
    if s == [] then 0 else Scaled(base, Value(s[..|s| - 1], base)) + DigitValue(s[|s| - 1])
  }

  predicate Printed(base: nat) {
    base == 10 || base == 16
  }

  function Quotient(v: nat, base: nat): nat
    requires Printed(base)
  {
    if base == 10 then v / 10 else v / 16
  }

  function Remainder(v: nat, base: nat): (r: nat)
    requires Printed(base)
    ensures r < base
  {
    if base == 10 then v % 10 else v % 16
  }

  /** The shortest spelling, in the two bases printf is asked for. */
  function Digits(v: nat, base: nat): (s: string)
    requires Printed(base)
    ensures |s| > 0
  {
    if v < base then [DigitChar(v)] else Digits(Quotient(v, base), base) + [DigitChar(Remainder(v, base))]
  }

  lemma DigitRoundTrip(d: nat)
    requires d < 16
    ensures DigitValue(DigitChar(d)) == d
  {
  }

  lemma {:induction false} DigitsValue(v: nat, base: nat)
    requires Printed(base)
    ensures AllDigits(Digits(v, base), base) && Value(Digits(v, base), base) == v
    decreases v
  {
    hide DigitChar, DigitValue;
    if v < base {
      DigitRoundTrip(v);
      assert Value([DigitChar(v)][..0], base) == 0;
    } else {
      var front, last := Digits(Quotient(v, base), base), DigitChar(Remainder(v, base));
      DigitsValue(Quotient(v, base), base);
      DigitRoundTrip(Remainder(v, base));
      assert (front + [last])[..|front|] == front;
    }
  }

  /** Leading zeros do not change the value. */
  function Padded(s: string, width: nat): (r: string)
    ensures |r| == if |s| < width then width else |s|
  {
    if |s| >= width then s else Zeros(width - |s|) + s
  }

  function Zeros(n: nat): (r: string)
    ensures |r| == n
  {
    if n == 0 then [] else Zeros(n - 1) + ['0']
  }

  lemma {:induction false} ZerosValue(n: nat, s: string, base: nat)
    requires Base(base) && AllDigits(s, base)
    ensures AllDigits(Zeros(n) + s, base) && Value(Zeros(n) + s, base) == Value(s, base)
    decreases n, |s|
  {
    if s == [] {
      assert Zeros(n) + s == Zeros(n);
      if n > 0 {
        ZerosValue(n - 1, [], base);
        assert Zeros(n - 1) + [] == Zeros(n - 1) && Zeros(n)[..n - 1] == Zeros(n - 1);
      }
    } else {
      var front := s[..|s| - 1];
      ZerosValue(n, front, base);
      assert (Zeros(n) + s)[..n + |s| - 1] == Zeros(n) + front && Zeros(n) + s == Zeros(n) + front + [s[|s| - 1]];
    }
  }

  lemma PaddedValue(v: nat, base: nat, width: nat)
    requires Printed(base)
    ensures var s := Padded(Digits(v, base), width); AllDigits(s, base) && Value(s, base) == v && |s| > 0
  {
    var s := Digits(v, base);
    DigitsValue(v, base);
    if |s| < width {
      ZerosValue(width - |s|, s, base);
    }
  }

  // ---- the printers ---------------------------------------------------------

  /** width bits, the highest first. */
  function Bits(v: nat, width: nat): (s: string)
    ensures |s| == width
  {
    if width == 0 then [] else Bits(v / 2, width - 1) + [if v % 2 == 1 then '1' else '0']
  }

  /** value is v reduced below p. */
  predicate Reduces(v: nat, p: nat, q: nat, value: nat) {
    v == p * q + value && value < p
  }

  /** The bits spell v but for a multiple of 2 to the width. */
  lemma {:induction false} BitsValue(v: nat, width: nat) returns (q: nat)
    ensures AllDigits(Bits(v, width), 2)
    ensures Reduces(v, Pow2(width), q, Value(Bits(v, width), 2))
    decreases width
  {
    hide Bits, Value, AllDigits;
    if width == 0 {
      NoBits(v);
      q := v;
    } else {
      hide Reduces;
      q := BitsValue(v / 2, width - 1);
      LastBit(v, width);
      Doubled(v, Pow2(width - 1), Pow2(width), q, Value(Bits(v / 2, width - 1), 2), Value(Bits(v, width), 2));
    }
  }

  lemma NoBits(v: nat)
    ensures AllDigits(Bits(v, 0), 2) && Value(Bits(v, 0), 2) == 0
  {
  }

  lemma LastBit(v: nat, width: nat)
    requires width > 0
    ensures Value(Bits(v, width), 2) == 2 * Value(Bits(v / 2, width - 1), 2) + v % 2
    ensures AllDigits(Bits(v / 2, width - 1), 2) ==> AllDigits(Bits(v, width), 2)
  {
    assert Bits(v, width)[..width - 1] == Bits(v / 2, width - 1);
  }

  lemma Doubled(v: nat, p: nat, p2: nat, q: nat, half: nat, value: nat)
    requires Reduces(v / 2, p, q, half) && p2 == 2 * p && value == 2 * half + v % 2
    ensures Reduces(v, p2, q, value)
  {
    assert (2 * p) * q == 2 * (p * q);
  }

  /** The source's test val & (1 << i). */
  predicate TestBit(val: u32, i: nat) {
    HalveTimes(val, i) % 2 == 1
  }

  /** print_binary_width, and with 32 the loop of B. */
  method PrintBinary(val: u32, widthBits: nat) returns (out: string)
    ensures out == Bits(val, widthBits)
  {
    out := "";
    var i := widthBits - 1;
    while i >= 0
      invariant -1 <= i < widthBits
      invariant out == Bits(HalveTimes(val, i + 1), widthBits - 1 - i)
    {
      out := out + [if TestBit(val, i) then '1' else '0'];
      i := i - 1;
    }
  }

  /** printf's %d, %u and %0nX. */
  function Decimal(v: int): string {
    if v < 0 then "-" + Digits(-v, 10) else Digits(v, 10)
  }

  function Hex(v: u32, width: nat): string {
    "0x" + Padded(Digits(v, 16), width)
  }

  /** The tokens of `.`, U., H. and B. */
  function Dot(v: u32): string {
    Decimal(Signed(v))
  }

  function UDot(v: u32): string {
    Decimal(v)
  }

  function HDot(v: u32): string {
    Hex(v, 8)
  }

  function BDot(v: u32): string {
    "%" + Bits(v, 32)
  }

  /** The width a Q. descriptor asks for, in bits. */
  function WidthOf(descriptor: u32): nat {
    match descriptor / 0x10 % 0x10
    case 1 => 4
    case 2 => 8
    case 4 => 16
    case _ => 32
  }

  /** One more than the mask. */
  function RangeOf(width: nat): (r: nat)
    ensures r > 0
  {
    match width
    case 4 => 0x10
    case 8 => 0x100
    case 16 => 0x1_0000
    case _ => 0x1_0000_0000
  }

  /** prepared_val with the sign of its width. */
  function SignOf(prepared: u32, width: nat): int {
    if prepared >= RangeOf(width) / 2 then prepared - RangeOf(width) else prepared
  }

  /** The token of Q. */
  function QDot(raw: u32, descriptor: u32): string {
    var width := WidthOf(descriptor);
    var prepared := raw % RangeOf(width);
    match descriptor % 0x10
    case 0 => Decimal(SignOf(prepared, width))
    case 2 => Hex(prepared, if width == 4 then 1 else width / 4)
    case 3 => "%" + Bits(prepared, width)
    case _ => Decimal(prepared)
  }

  // ---- the parser -----------------------------------------------------------

  function CharAt(s: string, i: nat): char {
    if i < |s| then s[i] else '\0'
  }

  predicate IsSpace(c: char) {
    c in {' ', '\t', '\n', '\r', 11 as char, 12 as char}
  }

  function SkipSpaces(s: string, i: nat): (r: nat)
    requires i <= |s|
    ensures i <= r <= |s|
    decreases |s| - i
  {
    if i < |s| && IsSpace(s[i]) then SkipSpaces(s, i + 1) else i
  }

  function DigitsEnd(s: string, i: nat, base: nat): (r: nat)
    requires i <= |s|
    ensures i <= r <= |s|
    decreases |s| - i
  {
    if i < |s| && DigitValue(s[i]) < base then DigitsEnd(s, i + 1, base) else i
  }

  function Negated(minus: bool, v: int): int {
    if minus then -v else v
  }

  function Saturated(v: int): int {
    if v > LLONG_MAX then LLONG_MAX else if v < LLONG_MIN then LLONG_MIN else v
  }

  function SignEnd(s: string, p: nat): (q: nat)
    requires p <= |s|
    ensures p <= q <= |s|
  {
    if CharAt(s, p) in {'+', '-'} then p + 1 else p
  }

  /** An 0x counts only if a digit follows. */
  function OxEnd(s: string, q: nat, base: nat): (r: nat)
    requires q <= |s|
    ensures q <= r <= |s|
  {
    if base == 16 && CharAt(s, q) == '0' && CharAt(s, q + 1) in {'x', 'X'} && DigitValue(CharAt(s, q + 2)) < 16
    then q + 2 else q
  }

  /** strtoll of section 7.22.1.4 of ISO/IEC 9899:2011: white space, a sign, for base
      16 an optional 0x, digits; the value and the end of what was read. */
  function Strtoll(s: string, base: nat): (r: (int, nat))
    requires Base(base)
  {
    var p := SkipSpaces(s, 0);
    var start := OxEnd(s, SignEnd(s, p), base);
    var end := DigitsEnd(s, start, base);
    if end == start then (0, 0)
    else (Saturated(Negated(CharAt(s, p) == '-', Value(s[start..end], base))), end)
  }

  /** Base of the token behind the sign, and how many characters announce it. */
  function Prefix(s: string): (r: (nat, nat))
    ensures Base(r.0)
  {
    if CharAt(s, 0) == '$' && |s| > 1 then (16, 1)
    else if CharAt(s, 0) == '%' && |s| > 1 then (2, 1)
    else if CharAt(s, 0) == '0' && CharAt(s, 1) in {'x', 'X'} && |s| > 2 then (16, 2)
    else (10, 0)
  }

  /** parse_forth_number. */
  function Parse(token: string): Option<u32> {
    var negative := CharAt(token, 0) == '-';
    var s := if negative then token[1..] else token;
    var (base, skip) := Prefix(s);
    var num := s[skip..];
    var (v, end) := Strtoll(num, base);
    if end == |num| && end != 0 then Some(Wrap(Negated(negative, v))) else None
  }

  lemma {:induction false} AllDigitsRead(s: string, i: nat, base: nat)
    requires i <= |s| && AllDigits(s[i..], base)
    ensures DigitsEnd(s, i, base) == |s|
    decreases |s| - i
  {
    if i == |s| {
    } else {
      assert s[i] == s[i..][0];
      assert forall c | c in s[i + 1..] :: c in s[i..];
      AllDigitsRead(s, i + 1, base);
    }
  }

  lemma DigitIsPlain(c: char)
    requires DigitValue(c) < 16
    ensures !IsSpace(c) && c !in {'+', '-', 'x', 'X', '$', '%'}
  {
  }

  lemma DigitsArePlain(s: string, base: nat, i: nat)
    requires Base(base) && AllDigits(s, base) && i < |s|
    ensures !IsSpace(s[i]) && s[i] !in {'+', '-', 'x', 'X', '$', '%'}
  {
    DigitIsPlain(s[i]);
  }

  /** What strtoll reads from its first character to its last. */
  datatype Number = Number(spaces: string, sign: string, ox: string, digits: string)

  predicate NumberOk(n: Number, base: nat) {
    && (forall c | c in n.spaces :: IsSpace(c))
    && n.sign in {"", "+", "-"}
    && (n.ox == "" || (base == 16 && n.ox in {"0x", "0X"}))
    && n.digits != "" && AllDigits(n.digits, base)
  }

  function SpellNumber(n: Number): string {
    n.spaces + n.sign + n.ox + n.digits
  }

  lemma {:induction false} SpacesSkipped(spaces: string, rest: string, i: nat)
    requires i <= |spaces| && (forall c | c in spaces :: IsSpace(c)) && (rest == "" || !IsSpace(rest[0]))
    ensures SkipSpaces(spaces + rest, i) == |spaces|
    decreases |spaces| - i
  {
    if i == |spaces| {
    } else {
      assert (spaces + rest)[i] == spaces[i];
      SpacesSkipped(spaces, rest, i + 1);
    }
  }

  lemma CharAtBehind(a: string, b: string, k: nat)
    ensures CharAt(a + b, |a| + k) == CharAt(b, k)
  {
  }

  /** How the part behind the sign begins. */
  lemma TailStarts(ox: string, digits: string, base: nat)
    requires Base(base) && digits != "" && AllDigits(digits, base)
    requires ox == "" || (base == 16 && ox in {"0x", "0X"})
    ensures var tail := ox + digits;
            && tail != "" && !IsSpace(tail[0]) && tail[0] !in {'+', '-'}
            && (ox != "" ==>
                  CharAt(tail, 0) == '0' && CharAt(tail, 1) in {'x', 'X'} && DigitValue(CharAt(tail, 2)) < 16)
            && (ox == "" ==> CharAt(tail, 1) !in {'x', 'X'})
  {
    hide DigitValue, IsSpace, AllDigits;
    DigitsArePlain(digits, base, 0);
    if |digits| > 1 {
      DigitsArePlain(digits, base, 1);
    }
    SignsAreNoSpaces();
    DigitsBelow(digits, base);
    if ox == "" {
      assert ox + digits == digits;
    } else {
      CharAtBehind(ox, digits, 0);
    }
  }

  lemma SignRead(spaces: string, sign: string, tail: string)
    requires sign in {"", "+", "-"} && tail != "" && tail[0] !in {'+', '-'}
    ensures var s := spaces + (sign + tail);
            SignEnd(s, |spaces|) == |spaces| + |sign| && (CharAt(s, |spaces|) == '-' <==> sign == "-")
  {
    CharAtBehind(spaces, sign + tail, 0);
    CharAtFirst(sign, tail);
  }

  lemma OxRead(front: string, ox: string, digits: string, base: nat)
    requires Base(base) && digits != "" && AllDigits(digits, base)
    requires ox == "" || (base == 16 && ox in {"0x", "0X"})
    ensures OxEnd(front + (ox + digits), |front|, base) == |front| + |ox|
  {
    hide AllDigits, DigitValue, CharAt;
    var tail := ox + digits;
    TailStarts(ox, digits, base);
    CharAtBehind(front, tail, 0);
    CharAtBehind(front, tail, 1);
    CharAtBehind(front, tail, 2);
  }

  lemma Regrouped(n: Number)
    ensures var tail := n.ox + n.digits;
            && SpellNumber(n) == n.spaces + (n.sign + tail) == (n.spaces + n.sign) + tail
            && SpellNumber(n) == (n.spaces + n.sign + n.ox) + n.digits
  {
  }

  lemma StrtollReads(n: Number, base: nat)
    requires Base(base) && NumberOk(n, base)
    ensures Strtoll(SpellNumber(n), base)
         == (Saturated(Negated(n.sign == "-", Value(n.digits, base))), |SpellNumber(n)|)
  {
    var s, tail := SpellNumber(n), n.ox + n.digits;
    var front := n.spaces + n.sign;
    var start := |front + n.ox|;
    assert start == |n.spaces| + |n.sign| + |n.ox|;
    TailStarts(n.ox, n.digits, base);
    SignsAreNoSpaces();
    Regrouped(n);
    SpacesSkipped(n.spaces, n.sign + tail, 0);
    hide DigitValue, IsSpace, Value, DigitsEnd, SkipSpaces, AllDigits, Saturated, CharAt, SignEnd, OxEnd,
         SpellNumber, Strtoll;
    SignRead(n.spaces, n.sign, tail);
    OxRead(front, n.ox, n.digits, base);
    BehindFront(front + n.ox, n.digits);
    AllDigitsRead(s, start, base);
    StrtollAt(s, |n.spaces|, |front|, start, base);
  }

  lemma StrtollAt(s: string, p: nat, q: nat, start: nat, base: nat)
    requires Base(base) && p <= |s| && q <= |s| && start < |s|
    requires SkipSpaces(s, 0) == p && SignEnd(s, p) == q && OxEnd(s, q, base) == start
    requires DigitsEnd(s, start, base) == |s|
    ensures Strtoll(s, base) == (Saturated(Negated(CharAt(s, p) == '-', Value(s[start..|s|], base))), |s|)
  {
    hide DigitValue, IsSpace, Value, DigitsEnd, SkipSpaces, Saturated, CharAt, SignEnd, OxEnd;
  }

  lemma CharAtFirst(sign: string, tail: string)
    requires sign in {"", "+", "-"} && tail != ""
    ensures CharAt(sign + tail, 0) == if sign == "" then tail[0] else sign[0]
    ensures CharAt(tail, 0) == tail[0]
  {
  }

  lemma BehindFront(a: string, b: string)
    ensures (a + b)[|a|..] == b && (a + b)[|a|..|a + b|] == b
  {
  }

  lemma SignsAreNoSpaces()
    ensures !IsSpace('+') && !IsSpace('-') && !IsSpace('0')
  {
  }

  lemma DigitsBelow(s: string, base: nat)
    requires AllDigits(s, base) && s != ""
    ensures DigitValue(s[0]) < base
  {
  }

  lemma {:induction false} DigitsBehind(s: string, i: nat, base: nat)
    requires i <= |s|
    ensures AllDigits(s[i..DigitsEnd(s, i, base)], base)
    decreases |s| - i
  {
    if i < |s| && DigitValue(s[i]) < base {
      DigitsBehind(s, i + 1, base);
      var end := DigitsEnd(s, i, base);
      assert s[i..end] == [s[i]] + s[i + 1..end];
    } else {
      assert s[i..i] == "";
    }
  }

  lemma {:induction false} SpacesBehind(s: string, i: nat)
    requires i <= |s|
    ensures forall c | c in s[i..SkipSpaces(s, i)] :: IsSpace(c)
    decreases |s| - i
  {
    if i < |s| && IsSpace(s[i]) {
      SpacesBehind(s, i + 1);
      var end := SkipSpaces(s, i);
      assert s[i..end] == [s[i]] + s[i + 1..end];
    } else {
      assert s[i..i] == "";
    }
  }

  /** What strtoll reads to the end is such a number. */
  lemma StrtollInverse(s: string, base: nat) returns (n: Number)
    requires Base(base) && Strtoll(s, base).1 == |s| && s != ""
    ensures NumberOk(n, base) && SpellNumber(n) == s
  {
    hide DigitValue, IsSpace, Value, DigitsEnd, SkipSpaces, AllDigits, Saturated, SignEnd, OxEnd, SpellNumber;
    var p := SkipSpaces(s, 0);
    var q := SignEnd(s, p);
    var start := OxEnd(s, q, base);
    SpacesBehind(s, 0);
    DigitsBehind(s, start, base);
    SignSlice(s, p);
    OxSlice(s, q, base);
    n := Number(s[..p], s[p..q], s[q..start], s[start..]);
    assert s[0..p] == s[..p] && s[start..|s|] == s[start..];
    SpellSlices(s, p, q, start);
  }

  lemma SpellSlices(s: string, p: nat, q: nat, start: nat)
    requires p <= q <= start <= |s|
    ensures SpellNumber(Number(s[..p], s[p..q], s[q..start], s[start..])) == s
  {
  }

  lemma SignSlice(s: string, p: nat)
    requires p <= |s|
    ensures s[p..SignEnd(s, p)] in {"", "+", "-"}
  {
    if SignEnd(s, p) == p {
      assert s[p..p] == "";
    } else {
      assert s[p..p + 1] == [s[p]];
    }
  }

  lemma OxSlice(s: string, q: nat, base: nat)
    requires q <= |s|
    ensures var ox := s[q..OxEnd(s, q, base)]; ox == "" || (base == 16 && ox in {"0x", "0X"})
  {
    assert OxEnd(s, q, base) == q + 2 ==> s[q..q + 2] == [s[q], s[q + 1]];
  }

  /** The ways to announce a base. */
  predicate Announces(prefix: string, base: nat) {
    (prefix == "" && base == 10) || (prefix == "%" && base == 2) || (prefix in {"$", "0x", "0X"} && base == 16)
  }

  /** A token that is a number: the parser's own minus and prefix before a number of
      strtoll, whose leading minus the parser takes for its own if nothing is before it. */
  datatype Literal = Literal(minus: bool, prefix: string, base: nat, number: Number)

  predicate LiteralOk(l: Literal) {
    && Announces(l.prefix, l.base) && NumberOk(l.number, l.base)
    && (!l.minus && l.prefix == "" && l.number.spaces == "" ==> l.number.sign != "-")
  }

  function Spell(l: Literal): string {
    (if l.minus then "-" else "") + l.prefix + SpellNumber(l.number)
  }

  function LiteralValue(l: Literal): int
    requires LiteralOk(l)
  {
    Negated(l.minus, Saturated(Negated(l.number.sign == "-", Value(l.number.digits, l.base))))
  }

  /** The first character of a number, and the second behind a 0 in base 10. */
  lemma NumberStarts(n: Number, base: nat)
    requires Base(base) && NumberOk(n, base)
    ensures var s := SpellNumber(n);
            && s != "" && s[0] !in {'$', '%'}
            && (n.spaces == "" && n.sign != "-" ==> s[0] != '-')
            && (n.spaces != "" ==> s[0] != '-')
            && (base == 10 && |s| > 1 && s[0] == '0' ==> s[1] !in {'x', 'X'})
  {
    hide DigitValue, AllDigits;
    DigitsArePlain(n.digits, base, 0);
    if |n.digits| > 1 {
      DigitsArePlain(n.digits, base, 1);
    }
    var s := SpellNumber(n);
    if n.spaces != "" {
      assert s[0] == n.spaces[0] && n.spaces[0] in n.spaces;
    } else if n.sign != "" {
      assert s[0] == n.sign[0];
    } else if n.ox != "" {
      assert s[0] == n.ox[0];
    } else {
      assert s == n.digits;
    }
  }

  lemma ParseSpelled(l: Literal)
    requires LiteralOk(l)
    ensures Parse(Spell(l)) == Some(Wrap(LiteralValue(l)))
  {
    hide NumberOk, SpellNumber, Strtoll, Value, Wrap, Saturated;
    var num := SpellNumber(l.number);
    var body, token := l.prefix + num, Spell(l);
    NumberStarts(l.number, l.base);
    assert l.minus ==> token[1..] == body;
    assert !l.minus ==> token == body;
    assert body[|l.prefix|..] == num;
    assert Prefix(body) == (l.base, |l.prefix|);
    StrtollReads(l.number, l.base);
  }

  lemma AcceptedIsLiteral(token: string) returns (l: Literal)
    requires Parse(token).Some?
    ensures LiteralOk(l) && Spell(l) == token
  {
    hide NumberOk, SpellNumber, Spell, Announces, Strtoll, Value, Wrap, Saturated, Prefix;
    var minus := CharAt(token, 0) == '-';
    var s := if minus then token[1..] else token;
    var (base, skip) := Prefix(s);
    PrefixAnnounces(s);
    var n := StrtollInverse(s[skip..], base);
    l := Literal(minus, s[..skip], base, n);
    SpellPieces(minus, s, skip, base, n);
    SignFirst(n);
    assert skip == 0 ==> s[skip..] == s;
  }

  lemma SpellPieces(minus: bool, s: string, skip: nat, base: nat, n: Number)
    requires skip <= |s| && SpellNumber(n) == s[skip..]
    ensures Spell(Literal(minus, s[..skip], base, n)) == if minus then "-" + s else s
  {
    hide SpellNumber;
    assert s == s[..skip] + s[skip..];
  }

  /** A token is accepted if and only if it is such a literal, and ParseSpelled says with
      what value. */
  lemma ParseExactly(token: string)
    ensures Parse(token).Some? <==> exists l :: LiteralOk(l) && Spell(l) == token
  {
    hide LiteralOk, Spell, Parse, Wrap;
    if Parse(token).Some? {
      var l := AcceptedIsLiteral(token);
    }
    if exists l :: LiteralOk(l) && Spell(l) == token {
      var l :| LiteralOk(l) && Spell(l) == token;
      ParseSpelled(l);
    }
  }

  lemma SignFirst(n: Number)
    ensures n.spaces == "" && n.sign == "-" ==> CharAt(SpellNumber(n), 0) == '-'
  {
  }

  lemma PrefixAnnounces(s: string)
    ensures var (base, skip) := Prefix(s); skip <= |s| && Announces(s[..skip], base)
  {
    var (base, skip) := Prefix(s);
    assert skip == 1 ==> s[..1] == [s[0]];
    assert skip == 2 ==> s[..2] == [s[0], s[1]];
  }

  /** A second sign and a second prefix are left to strtoll. */
  lemma TwiceAnnounced(digits: string)
    requires digits != ""
    ensures AllDigits(digits, 10) ==> Parse("--" + digits) == Some(Wrap(-Saturated(Negated(true, Value(digits, 10)))))
    ensures AllDigits(digits, 16) ==> Parse("$0x" + digits) == Some(Wrap(Saturated(Value(digits, 16))))
  {
    hide Parse, Value, Wrap, Saturated, AllDigits;
    if AllDigits(digits, 10) {
      var l := Literal(true, "", 10, Number("", "-", "", digits));
      ParseSpelled(l);
      assert Spell(l) == "--" + digits;
    }
    if AllDigits(digits, 16) {
      var l := Literal(false, "$", 16, Number("", "", "0x", digits));
      ParseSpelled(l);
      assert Spell(l) == "$0x" + digits;
    }
  }

  /** Every literal of the four forms, with or without a minus, is read as its value
      on 32 bits, once strtoll has cut the magnitude at the largest long long. */
  lemma ParseLiteral(minus: bool, prefix: string, s: string, base: nat)
    requires Announces(prefix, base) && s != [] && AllDigits(s, base)
    ensures Parse((if minus then "-" else "") + prefix + s)
         == Some(Wrap(Negated(minus, Saturated(Value(s, base)))))
  {
    hide DigitValue, Value, Wrap, AllDigits, Parse;
    var l := Literal(minus, prefix, base, Number("", "", "", s));
    ParseSpelled(l);
    assert SpellNumber(l.number) == s;
  }

  // ---- round trips ----------------------------------------------------------

  predicate OneToken(s: string) {
    s != [] && |s| <= 33 && forall c | c in s :: !IsSpace(c)
  }

  lemma {:induction false} DigitsLength(v: nat, base: nat, n: nat, bound: nat)
    requires Printed(base) && n > 0 && bound == Power(base, n) && v < bound
    ensures |Digits(v, base)| <= n
    decreases n
  {
    if v < base {
    } else {
      assert Power(base, 1) == base * Power(base, 0);
      assert n > 1;
      DigitsLength(Quotient(v, base), base, n - 1, Power(base, n - 1));
    }
  }

  function Power(base: nat, n: nat): nat {
    if n == 0 then 1 else base * Power(base, n - 1)
  }

  lemma PowersCover()
    ensures Power(10, 10) == 10_000_000_000 && Power(16, 8) == 0x1_0000_0000
  {
    assert Power(10, 5) == 100_000;
    assert Power(16, 4) == 0x1_0000;
  }

  lemma PlainToken(prefix: string, s: string, base: nat)
    requires prefix in {"", "-", "%", "0x"} && s != [] && |prefix| + |s| <= 33 && AllDigits(s, base) && base <= 16
    ensures OneToken(prefix + s)
  {
    forall c | c in prefix + s
      ensures !IsSpace(c)
    {
      if c in s {
        DigitIsPlain(c);
      }
    }
  }

  lemma EmptyFronts(s: string)
    ensures "" + "" + s == s && "-" + "" + s == "-" + s && "" + s == s
  {
  }

  /** A signed or unsigned decimal. */
  lemma DecimalRoundTrip(v: int)
    requires -0x1_0000_0000 < v < 0x1_0000_0000
    ensures Parse(Decimal(v)) == Some(Wrap(v)) && OneToken(Decimal(v))
  {
    var n: nat := if v < 0 then -v else v;
    var s := Digits(n, 10);
    hide Digits, Value, Wrap, Parse, AllDigits, OneToken;
    EmptyFronts(s);
    DigitsValue(n, 10);
    ParseLiteral(v < 0, "", s, 10);
    PowersCover();
    DigitsLength(n, 10, 10, Power(10, 10));
    PlainToken(if v < 0 then "-" else "", s, 10);
  }

  lemma HexRoundTrip(v: u32, width: nat)
    requires width <= 8
    ensures Parse(Hex(v, width)) == Some(v) && OneToken(Hex(v, width))
  {
    var s := Padded(Digits(v, 16), width);
    hide Digits, Value, Parse, AllDigits, OneToken, Padded, Wrap;
    WrapIs(v, 0);
    PaddedValue(v, 16, width);
    ParseLiteral(false, "0x", s, 16);
    PowersCover();
    DigitsLength(v, 16, 8, Power(16, 8));
    PaddedLength(Digits(v, 16), width);
    PlainToken("0x", s, 16);
    assert "" + "0x" + s == "0x" + s;
  }

  lemma BinaryRoundTrip(v: u32, width: nat)
    requires width in {4, 8, 16, 32} && v < RangeOf(width)
    ensures Parse("%" + Bits(v, width)) == Some(v) && OneToken("%" + Bits(v, width))
  {
    var s := Bits(v, width);
    hide Bits, Value, Parse, AllDigits, OneToken, Pow2, Wrap;
    WrapIs(v, 0);
    RangePow2(width);
    BitsExact(v, width);
    ParseLiteral(false, "%", s, 2);
    PlainToken("%", s, 2);
    assert "" + "%" + s == "%" + s;
  }

  lemma AtLeast(m: nat, q: nat)
    ensures q >= 1 ==> m * q >= m
    ensures q == 0 ==> m * q == 0
  {
    if q >= 1 {
      assert m * q == m * (q - 1) + m;
    }
  }

  lemma BitsExact(v: nat, width: nat)
    requires v < Pow2(width)
    ensures AllDigits(Bits(v, width), 2) && Value(Bits(v, width), 2) == v
  {
    hide Pow2, Bits, Value, AllDigits;
    var q := BitsValue(v, width);
    AtLeast(Pow2(width), q);
  }

  lemma PaddedLength(s: string, width: nat)
    requires |s| <= 8 && width <= 8
    ensures |Padded(s, width)| <= 8
  {
  }

  lemma RangePow2(width: nat)
    requires width in {4, 8, 16, 32}
    ensures RangeOf(width) == Pow2(width)
  {
    assert Pow2(4) == 16;
    assert Pow2(8) == 0x10 * Pow2(4);
    assert Pow2(12) == 0x10 * Pow2(8);
    assert Pow2(16) == 0x10 * Pow2(12);
    assert Pow2(20) == 0x10 * Pow2(16);
    assert Pow2(24) == 0x10 * Pow2(20);
    assert Pow2(28) == 0x10 * Pow2(24);
    assert Pow2(32) == 0x10 * Pow2(28);
  }

  /** For every cell, the token that `.`, U., H. or B. prints is one token of at most
      33 characters, and reading it gives the cell back. */
  lemma PrintedParses(v: u32)
    ensures Parse(Dot(v)) == Parse(UDot(v)) == Parse(HDot(v)) == Parse(BDot(v)) == Some(v)
    ensures OneToken(Dot(v)) && OneToken(UDot(v)) && OneToken(HDot(v)) && OneToken(BDot(v))
  {
    hide Parse, Decimal, Hex, Bits, OneToken;
    DecimalRoundTrip(v);
    DecimalRoundTrip(Signed(v));
    HexRoundTrip(v, 8);
    BinaryRoundTrip(v, 32);
  }

  /** For every cell and every descriptor, the token that Q. prints reads back as a
      value that agrees with the cell on the width asked for: the masked cell, or in
      signed decimal its sign extension. */
  lemma FormattedParses(raw: u32, descriptor: u32)
    ensures OneToken(QDot(raw, descriptor))
    ensures var range, r := RangeOf(WidthOf(descriptor)), Parse(QDot(raw, descriptor));
            && r.Some? && r.value % range == raw % range
            && (descriptor % 0x10 != 0 ==> r.value == raw % range)
            && (descriptor % 0x10 == 0 ==>
                  r.value == if raw % range >= range / 2 then raw % range + (0x1_0000_0000 - range) else raw % range)
  {
    hide Parse, Decimal, Hex, Bits, OneToken;
    var width := WidthOf(descriptor);
    var prepared := raw % RangeOf(width);
    DecimalRoundTrip(prepared);
    DecimalRoundTrip(SignOf(prepared, width));
    HexRoundTrip(prepared, if width == 4 then 1 else width / 4);
    BinaryRoundTrip(prepared, width);
    ExtendedSign(raw, width);
  }

  lemma ExtendedSign(raw: u32, width: nat)
    requires width in {4, 8, 16, 32}
    ensures var range := RangeOf(width);
            var prepared := raw % range;
            && Wrap(SignOf(prepared, width))
               == (if prepared >= range / 2 then prepared + (0x1_0000_0000 - range) else prepared)
            && Wrap(SignOf(prepared, width)) % range == raw % range
  {
  }
}
