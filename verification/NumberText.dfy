/** Numbers character by character: what the printers put out and what the parser
    takes, by tables of digits. */
module NumberText {
  import opened Words
  import opened Numbers

  const UPPER: string := "0123456789ABCDEF"
  const LOWER: string := "0123456789abcdef"

  /** A character is the digit d in one of the two tables, or has no value below 16. */
  lemma DigitValueExactly(c: char, d: nat)
    requires d < 16
    ensures DigitValue(c) == d <==> c == UPPER[d] || c == LOWER[d]
  {
  }

  lemma {:induction false} PowerPositive(b: nat, n: nat)
    requires b > 0
    ensures Power(b, n) > 0
  {
    if n == 0 {
    } else {
      PowerPositive(b, n - 1);
      assert b * Power(b, n - 1) > 0;
    }
  }

  // ---- what the parser takes ------------------------------------------------

  /** s spells v in either case, leading zeros allowed. */
  predicate Spells(s: string, v: nat, base: nat)
    requires Base(base)
  {
    if s == "" then v == 0
    else
      var n, d := |s| - 1, v % base;
      (s[n] == UPPER[d] || s[n] == LOWER[d]) && Spells(s[..n], v / base, base)
  }

  lemma {:induction false} SpelledValue(s: string, v: nat, base: nat)
    requires Base(base) && Spells(s, v, base)
    ensures AllDigits(s, base) && Value(s, base) == v
    decreases |s|
  {
    if s == "" {
    } else {
      var n := |s| - 1;
      SpelledValue(s[..n], v / base, base);
      DigitValueExactly(s[n], v % base);
      assert s == s[..n] + [s[n]];
    }
  }

  /** Every spelling of v, behind any of the prefixes of its base and with or without a
      minus, is read as v on 32 bits, and from 2 to the 63 on as the largest long long. */
  lemma SpellingParses(minus: bool, prefix: string, s: string, v: nat, base: nat)
    requires (base == 10 && prefix == "") || (base == 2 && prefix == "%")
             || (base == 16 && prefix in {"$", "0x", "0X"})
    requires s != "" && Spells(s, v, base)
    ensures var read: int := if v < 0x8000_0000_0000_0000 then v else 0x7FFF_FFFF_FFFF_FFFF;
            Parse((if minus then "-" else "") + prefix + s) == Some(Wrap(if minus then -read else read))
    ensures !minus && v < 0x1_0000_0000 ==> Parse(prefix + s) == Some(v)
  {
    hide Parse, Spells, Value, AllDigits, Wrap;
    SpelledValue(s, v, base);
    ParseLiteral(minus, prefix, s, base);
    assert "" + prefix + s == prefix + s;
    if v < 0x1_0000_0000 {
      WrapIs(v, 0);
    }
  }

  /** The minus that strtoll reads reaches one further. */
  lemma SecondMinus(s: string, v: nat)
    requires s != "" && Spells(s, v, 10)
    ensures Parse("--" + s) == Some(if v < 0x8000_0000_0000_0000 then Wrap(v) else 0)
  {
    hide Parse, Spells, Value, AllDigits, Wrap;
    SpelledValue(s, v, 10);
    TwiceAnnounced(s);
    WrapIs(0x8000_0000_0000_0000, 0x8000_0000);
  }

  /** What Digits prints is such a spelling. */
  lemma {:induction false} DigitsSpell(v: nat, base: nat)
    requires Printed(base)
    ensures Spells(Digits(v, base), v, base)
    decreases v
  {
    if v < base {
      assert [DigitChar(v)][..0] == "";
    } else {
      DigitsSpell(v / base, base);
      var front := Digits(v / base, base);
      assert (front + [DigitChar(v % base)])[..|front|] == front;
    }
  }

  /** The characters a number can hold: digits, prefixes, signs and white space. */
  predicate Known(c: char) {
    c in "0123456789ABCDEFabcdefxX$%+-" || 9 <= c as int <= 13 || c as int == 32
  }

  /** A token with any other character in it is refused. */
  lemma OtherRefused(token: string, c: char)
    requires c in token && !Known(c)
    ensures Parse(token).None?
  {
    hide Parse, LiteralOk, Spell;
    if Parse(token).Some? {
      var l := AcceptedIsLiteral(token);
      LiteralKnown(l, c);
    }
  }

  lemma LiteralKnown(l: Literal, c: char)
    requires LiteralOk(l) && c in Spell(l)
    ensures Known(c)
  {
    var n := l.number;
    if c in n.digits {
      var d := DigitValue(c);
      assert d < 16;
      DigitValueExactly(c, d);
    } else if c in n.spaces {
      assert IsSpace(c);
    } else {
      assert c == '-' || c in l.prefix || c in n.sign || c in n.ox;
    }
  }

  /** One character in front of decimal digits: white space, a sign, $ or a digit is
      accepted, and nothing else but % before binary digits. */
  lemma OneMore(c: char, s: string, v: nat)
    requires s != "" && Spells(s, v, 10) && c != '%'
    ensures Parse([c] + s).Some? <==> c in "0123456789$+-" || 9 <= c as int <= 13 || c as int == 32
  {
    var token := [c] + s;
    SpelledValue(s, v, 10);
    if c in "0123456789$+-" || 9 <= c as int <= 13 || c as int == 32 {
      OneMoreTaken(c, s);
    } else {
      DigitTable(c);
      assert Prefix(token) == (10, 0);
      assert token[0..] == token;
    }
  }

  lemma DigitTable(c: char)
    ensures c !in "0123456789" ==> DigitValue(c) >= 10
    ensures c in "0123456789" ==> DigitValue(c) < 10
  {
  }

  lemma OneMoreTaken(c: char, s: string)
    requires s != "" && AllDigits(s, 10) && (c in "0123456789$+-" || 9 <= c as int <= 13 || c as int == 32)
    ensures Parse([c] + s).Some?
  {
    hide Parse, DigitValue, Value, Wrap;
    DigitTable(c);
    var plain := Literal(false, "", 10, Number("", "", "", s));
    var l :=
      if c == '$' then Literal(false, "$", 16, plain.number)
      else if c == '-' then plain.(minus := true)
      else if c == '+' then plain.(number := Number("", "+", "", s))
      else if c in "0123456789" then plain.(number := Number("", "", "", [c] + s))
      else plain.(number := Number([c], "", "", s));
    ParseSpelled(l);
    assert Spell(l) == [c] + s;
  }

  // ---- what the printers put out --------------------------------------------

  /** The digit of v before k others. */
  function DigitOf(v: nat, base: nat, k: nat): char
    requires base == 10 || base == 16
  {
    PowerPositive(base, k);
    UPPER[v / Power(base, k) % base]
  }

  function BitOf(v: nat, k: nat): char {
    if v / Pow2(k) % 2 == 1 then '1' else '0'
  }

  /** n in decimal without leading zeros. */
  predicate IsNaturalOf(s: string, n: nat) {
    && s != "" && (|s| > 1 ==> s[0] != '0') && n < Power(10, |s|)
    && forall i | 0 <= i < |s| :: s[i] == DigitOf(n, 10, |s| - 1 - i)
  }

  predicate IsDecimalOf(s: string, v: int) {
    if v < 0 then s != "" && s[0] == '-' && IsNaturalOf(s[1..], -v) else IsNaturalOf(s, v)
  }

  /** 0x and n hexadecimal digits. */
  predicate IsHexOf(s: string, v: nat, n: nat) {
    && |s| == 2 + n && s[0] == '0' && s[1] == 'x'
    && forall i | 0 <= i < n :: s[2..][i] == DigitOf(v, 16, n - 1 - i)
  }

  /** % and n bits. */
  predicate IsBinaryOf(s: string, v: nat, n: nat) {
    && |s| == 1 + n && s[0] == '%'
    && forall i | 0 <= i < n :: s[1..][i] == BitOf(v, n - 1 - i)
  }

  /** The digit before k + 1 others of v is the digit before k others of the rest. */
  lemma DigitAbove(v: nat, base: nat, k: nat)
    requires base == 10 || base == 16
    ensures DigitOf(v, base, k + 1) == DigitOf(v / base, base, k)
    ensures DigitOf(v, base, 0) == UPPER[v % base]
  {
    PowerPositive(base, k);
    DivideTwice(v, base, Power(base, k));
  }

  lemma {:induction false} DigitsAt(v: nat, i: nat)
    requires i < |Digits(v, 10)|
    ensures var s := Digits(v, 10);
            && v < Power(10, |s|) && ((|s| > 1 || v > 0) ==> s[0] != '0')
            && s[i] == DigitOf(v, 10, |s| - 1 - i)
    decreases v
  {
    hide DigitOf;
    var s := Digits(v, 10);
    var n := |s| - 1;
    DigitAbove(v, 10, if i < n then n - 1 - i else 0);
    if v < 10 {
      assert Power(10, 1) == 10 * Power(10, 0);
    } else {
      DigitsAt(v / 10, if i < n then i else 0);
    }
  }

  lemma DigitsAreNatural(v: nat)
    ensures IsNaturalOf(Digits(v, 10), v)
  {
    hide DigitOf, Digits, Power;
    DigitsAt(v, 0);
    forall i | 0 <= i < |Digits(v, 10)|
      ensures Digits(v, 10)[i] == DigitOf(v, 10, |Digits(v, 10)| - 1 - i)
    {
      DigitsAt(v, i);
    }
  }

  lemma DecimalCharacters(v: int)
    ensures IsDecimalOf(Decimal(v), v)
  {
    DigitsAreNatural(if v < 0 then -v else v);
    hide Digits, IsNaturalOf;
    if v < 0 {
      assert Decimal(v)[1..] == Digits(-v, 10);
    }
  }

  /** The last digit of a padded number, and what is before it. */
  lemma PaddedLast(v: nat, n: nat)
    requires n > 1
    ensures Padded(Digits(v, 16), n) == Padded(Digits(v / 16, 16), n - 1) + [UPPER[v % 16]]
  {
    if v < 16 {
      assert Zeros(n - 1) == Zeros(n - 2) + ['0'];
    }
  }

  lemma {:induction false} PaddedAt(v: nat, n: nat, i: nat)
    requires i < n && v < Power(16, n)
    ensures var s := Padded(Digits(v, 16), n); |s| == n && s[i] == DigitOf(v, 16, n - 1 - i)
    decreases n
  {
    hide DigitOf;
    DigitAbove(v, 16, if i < n - 1 then n - 2 - i else 0);
    if n == 1 {
      assert Power(16, 1) == 16 * Power(16, 0);
    } else {
      hide Padded, Digits;
      PaddedLast(v, n);
      PaddedAt(v / 16, n - 1, if i < n - 1 then i else 0);
    }
  }

  lemma HexCharacters(v: u32, n: nat)
    requires 0 < n && v < Power(16, n)
    ensures IsHexOf(Hex(v, n), v, n)
  {
    hide Padded, Digits, DigitOf, Power;
    var s := Padded(Digits(v, 16), n);
    PaddedAt(v, n, 0);
    assert Hex(v, n)[2..] == s;
    forall i | 0 <= i < n
      ensures s[i] == DigitOf(v, 16, n - 1 - i)
    {
      PaddedAt(v, n, i);
    }
  }

  lemma {:induction false} BitsAt(v: nat, n: nat, i: nat)
    requires i < n
    ensures Bits(v, n)[i] == BitOf(v, n - 1 - i)
    decreases n
  {
    if i == n - 1 {
      assert Pow2(0) == 1;
    } else {
      hide Bits;
      BitsFront(v, n);
      BitsAt(v / 2, n - 1, i);
      DivideTwice(v, 2, Pow2(n - 2 - i));
    }
  }

  lemma BitsFront(v: nat, n: nat)
    requires n > 0
    ensures Bits(v, n)[..n - 1] == Bits(v / 2, n - 1)
  {
  }

  lemma BinaryCharacters(v: nat, n: nat)
    ensures IsBinaryOf("%" + Bits(v, n), v, n)
  {
    hide Bits, BitOf;
    assert ("%" + Bits(v, n))[1..] == Bits(v, n);
    forall i | 0 <= i < n
      ensures Bits(v, n)[i] == BitOf(v, n - 1 - i)
    {
      BitsAt(v, n, i);
    }
  }

  /** The characters of `.`, U., H. and B. for every cell. */
  lemma PrintedCharacters(v: u32)
    ensures IsDecimalOf(Dot(v), Signed(v)) && IsDecimalOf(UDot(v), v)
    ensures IsHexOf(HDot(v), v, 8) && IsBinaryOf(BDot(v), v, 32)
  {
    hide Decimal, Hex, Bits, IsDecimalOf, IsHexOf, IsBinaryOf, Power;
    DecimalCharacters(Signed(v));
    DecimalCharacters(v);
    PowersCover();
    HexCharacters(v, 8);
    BinaryCharacters(v, 32);
  }

  /** The width in bits that a descriptor of Q. asks for in its second digit. */
  function FormatBits(descriptor: u32): nat {
    match descriptor / 0x10 % 0x10
    case 1 => 4
    case 2 => 8
    case 4 => 16
    case _ => 32
  }

  /** The characters of Q. for every cell and descriptor: the low digit chooses the
      notation. */
  lemma FormattedCharacters(raw: u32, descriptor: u32)
    ensures var bits := FormatBits(descriptor);
            var n, s := raw % Pow2(bits), QDot(raw, descriptor);
            match descriptor % 0x10
            case 0 => IsDecimalOf(s, if n < Pow2(bits - 1) then n else n - Pow2(bits))
            case 2 => IsHexOf(s, n, bits / 4)
            case 3 => IsBinaryOf(s, n, bits)
            case _ => IsDecimalOf(s, n)
  {
    var bits := WidthOf(descriptor);
    RangePow2(bits);
    assert Pow2(bits) == 2 * Pow2(bits - 1);
    hide Pow2, Decimal, Hex, Bits, IsDecimalOf, IsHexOf, IsBinaryOf, Power;
    var n := raw % RangeOf(bits);
    DecimalCharacters(SignOf(n, bits));
    DecimalCharacters(n);
    HexRoom(bits);
    HexCharacters(n, bits / 4);
    BinaryCharacters(n, bits);
  }

  lemma HexRoom(bits: nat)
    requires bits in {4, 8, 16, 32}
    ensures Power(16, bits / 4) == RangeOf(bits)
  {
    PowersCover();
    assert Power(16, 1) == 16 && Power(16, 2) == 0x100 && Power(16, 4) == 0x1_0000;
  }
}
