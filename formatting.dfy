/** The byte representations a raw_ostream produces for the values it is
    given: characters and strings verbatim, integers in decimal, pointers in
    hexadecimal and the escaped form written by write_escaped. Everything here
    is a pure function of its argument; none of it touches a stream. */
module Formatting {

  /** One byte of a C++ `char` string. */
  type Byte = c: char | c as int < 256 witness '\0'
  type Bytes = seq<Byte>

  const TwoTo64: int := 0x1_0000_0000_0000_0000

  newtype uint64 = x: int | 0 <= x < 0x1_0000_0000_0000_0000
  newtype int64 = x: int | -0x8000_0000_0000_0000 <= x < 0x8000_0000_0000_0000
  newtype int32 = x: int | -0x8000_0000 <= x < 0x8000_0000

  const UINT64_MAX: uint64 := 0xFFFF_FFFF_FFFF_FFFF
  const INT64_MIN: int64 := -0x8000_0000_0000_0000

  datatype Option<T> = None | Some(value: T)

  /** The values the tests hand to `operator<<`. `Preformatted` stands for the
      object returned by `format(...)`, whose bytes are taken as given. */
  datatype Value =
    | Char(c: Byte)
    | String(s: Bytes)
    | Int(i: int32)
    | LongLong(l: int64)
    | ULongLong(u: uint64)
    | Pointer(address: uint64)
    | Preformatted(text: Bytes)

  // ---------------------------------------------------------------------
  // Digits and numerals in base 10 (integers) and base 16 (pointers)
  // ---------------------------------------------------------------------

  predicate ValidBase(base: nat) { base == 10 || base == 16 }

  /** The digit for `d`, lower-case for 10..15. */
  function DigitChar(d: nat): (c: Byte)
    requires d < 16
  {
    if d < 10 then ('0' as int + d) as char else ('a' as int + d - 10) as char
  }

  /** The value of a lower-case digit character, if it is one. */
  function DigitValue(c: Byte): (r: Option<nat>)
    ensures r.Some? ==> r.value < 16 && DigitChar(r.value) == c
  {
    if '0' <= c <= '9' then Some(c as int - '0' as int)
    else if 'a' <= c <= 'f' then Some(c as int - 'a' as int + 10)
    else None
  }

  lemma DigitValueOfDigitChar(d: nat)
    requires d < 16
    ensures DigitValue(DigitChar(d)) == Some(d)
  {
  }

  predicate IsDigit(c: Byte, base: nat)
  {
    DigitValue(c).Some? && DigitValue(c).value < base
  }

  predicate AllDigits(s: Bytes, base: nat)
  {
    forall i :: 0 <= i < |s| ==> IsDigit(s[i], base)
  }

  /** A numeral with no leading zeros: "0", or digits starting with a non-zero one. */
  predicate Canonical(s: Bytes, base: nat)
  {
    |s| >= 1 && AllDigits(s, base) && (s[0] == '0' ==> |s| == 1)
  }

  /** The digits of `n`, most significant first, no leading zeros. */
  function Numeral(n: nat, base: nat): (r: Bytes)
    requires ValidBase(base)
    decreases n
  {
    if n < base then [DigitChar(n)] else Numeral(n / base, base) + [DigitChar(n % base)]
  }

  /** The value of a digit string, read most significant digit first. */
  function NumeralValue(s: Bytes, base: nat): nat
    requires AllDigits(s, base)
    decreases |s|
  {
    if |s| == 0 then 0
    else NumeralValue(s[..|s| - 1], base) * base + DigitValue(s[|s| - 1]).value
  }

  function Pow(base: nat, k: nat): nat
  {
    if k == 0 then 1 else base * Pow(base, k - 1)
  }

  /** A numeral is made of digits of its base, with no leading zeros; its first digit is '0' exactly when `n` is zero. */
  lemma {:induction false} NumeralIsCanonical(n: nat, base: nat)
    requires ValidBase(base)
    ensures Canonical(Numeral(n, base), base)
    ensures Numeral(n, base)[0] == '0' <==> n == 0
  {
    if n < base {
      DigitValueOfDigitChar(n);
    } else {
      NumeralIsCanonical(n / base, base);
      var p := Numeral(n / base, base);
      DigitValueOfDigitChar(n % base);
      assert Numeral(n, base) == p + [DigitChar(n % base)];
    }
  }

  /** Reading a numeral gives back the number. */
  lemma {:induction false} NumeralRoundTrip(n: nat, base: nat)
    requires ValidBase(base)
    ensures AllDigits(Numeral(n, base), base)
    ensures NumeralValue(Numeral(n, base), base) == n
  {
    NumeralIsCanonical(n, base);
    if n < base {
      DigitValueOfDigitChar(n);
    } else {
      var p := Numeral(n / base, base);
      var s := Numeral(n, base);
      NumeralRoundTrip(n / base, base);
      DigitValueOfDigitChar(n % base);
      assert s[..|s| - 1] == p;
    }
  }

  lemma {:induction false} PositiveNumeralValue(s: Bytes, base: nat)
    requires ValidBase(base) && AllDigits(s, base) && |s| >= 1 && s[0] != '0'
    ensures NumeralValue(s, base) >= 1
  {
    if |s| > 1 {
      var p := s[..|s| - 1];
      assert p[0] == s[0];
      PositiveNumeralValue(p, base);
    }
  }

  /** Every canonical numeral is the numeral of its value, so `Numeral` is a
      bijection between numbers and canonical numerals. */
  lemma {:induction false} CanonicalIsNumeral(s: Bytes, base: nat)
    requires ValidBase(base) && Canonical(s, base)
    ensures Numeral(NumeralValue(s, base), base) == s
  {
    if |s| == 1 {
      assert s[..0] == [];
    } else {
      var p := s[..|s| - 1];
      var d := DigitValue(s[|s| - 1]).value;
      assert p[0] == s[0];
      PositiveNumeralValue(p, base);
      CanonicalIsNumeral(p, base);
      var m := NumeralValue(p, base);
      LastDigit(m, d, base);
      assert s == p + [s[|s| - 1]];
    }
  }

  lemma LastDigit(m: nat, d: nat, base: nat)
    requires ValidBase(base) && d < base
    ensures (m * base + d) / base == m && (m * base + d) % base == d
  {
    if base == 10 {
      assert m * 10 + d == 10 * m + d;
    } else {
      assert m * 16 + d == 16 * m + d;
    }
  }

  /** A numeral takes at most `k` digits exactly when the number is below base^k. */
  lemma {:induction false} NumeralLength(n: nat, base: nat, k: nat)
    requires ValidBase(base) && k >= 1
    ensures |Numeral(n, base)| <= k <==> n < Pow(base, k)
    decreases n
  {
    assert Pow(base, k) == base * Pow(base, k - 1);
    if k == 1 {
      assert Pow(base, 1) == base;
    } else if n >= base {
      NumeralLength(n / base, base, k - 1);
    } else {
      PowAtLeastBase(base, k);
    }
  }

  lemma {:induction false} PowAtLeastBase(base: nat, k: nat)
    requires ValidBase(base) && k >= 1
    ensures Pow(base, k) >= base
  {
    if k > 1 {
      PowAtLeastBase(base, k - 1);
    }
  }

  // ---------------------------------------------------------------------
  // Integers
  // ---------------------------------------------------------------------

  /** The magnitude of a signed 64-bit value, computed by unsigned 64-bit
      negation, with the wrap-around written out. It is exact for every
      value, INT64_MIN included. */
  function Magnitude(n: int64): (m: uint64)
    ensures m as int == if n < 0 then -(n as int) else n as int
  {
    if n < 0 then
      var asUnsigned := n as int + TwoTo64;
      ((TwoTo64 - asUnsigned) % TwoTo64) as uint64
    else n as int as uint64
  }

  function FormatUInt64(u: uint64): Bytes
  {
    Numeral(u as nat, 10)
  }

  function FormatInt64(n: int64): Bytes
  {
    if n < 0 then ['-'] + Numeral(Magnitude(n) as nat, 10) else Numeral(n as nat, 10)
  }

  /** An `int` is widened to a 64-bit value and printed as one. */
  function FormatInt32(n: int32): Bytes
  {
    FormatInt64(n as int as int64)
  }

  /** A signed decimal: a canonical numeral, optionally after a '-' that is never followed by "0". */
  predicate IsSignedDecimal(s: Bytes)
  {
    Canonical(s, 10) || (|s| >= 2 && s[0] == '-' && s[1] != '0' && Canonical(s[1..], 10))
  }

  function SignedValue(s: Bytes): int
    requires IsSignedDecimal(s)
  {
    if Canonical(s, 10) then NumeralValue(s, 10) else -(NumeralValue(s[1..], 10) as int)
  }

  /** A signed 64-bit value prints as a signed decimal which reads back as that value. */
  lemma FormatInt64RoundTrip(n: int64)
    ensures IsSignedDecimal(FormatInt64(n))
    ensures SignedValue(FormatInt64(n)) == n as int
  {
    var s := FormatInt64(n);
    var m := Magnitude(n) as nat;
    NumeralIsCanonical(m, 10);
    NumeralRoundTrip(m, 10);
    if n < 0 {
      assert s[1..] == Numeral(m, 10);
      assert !AllDigits(s, 10) by { assert !IsDigit(s[0], 10); }
    } else {
      NumeralRoundTrip(n as nat, 10);
    }
  }

  /** Conversely, every signed decimal in the 64-bit range is what its value prints as. */
  lemma SignedDecimalIsFormatted(s: Bytes)
    requires IsSignedDecimal(s)
    requires -0x8000_0000_0000_0000 <= SignedValue(s) < 0x8000_0000_0000_0000
    ensures FormatInt64(SignedValue(s) as int64) == s
  {
    if Canonical(s, 10) {
      CanonicalIsNumeral(s, 10);
      if s[0] != '0' {
        PositiveNumeralValue(s, 10);
      }
    } else {
      PositiveNumeralValue(s[1..], 10);
      CanonicalIsNumeral(s[1..], 10);
      assert s == ['-'] + s[1..];
    }
  }

  /** No 64-bit integer needs more than 20 bytes: UINT64_MAX has 20 digits and
      INT64_MIN 19 digits after its sign. */
  lemma IntegerWidths(u: uint64, n: int64)
    ensures |FormatUInt64(u)| <= 20
    ensures |FormatInt64(n)| <= 20
  {
    assert Pow(10, 5) == 100_000;
    assert Pow(10, 10) == 10_000_000_000;
    assert Pow(10, 15) == 1_000_000_000_000_000;
    assert Pow(10, 19) == 10_000_000_000_000_000_000;
    NumeralLength(u as nat, 10, 20);
    if n < 0 {
      NumeralLength(Magnitude(n) as nat, 10, 19);
    } else {
      NumeralLength(n as int, 10, 19);
    }
  }

  // ---------------------------------------------------------------------
  // Pointers
  // ---------------------------------------------------------------------

  /** `0x` followed by the address in lower-case hexadecimal, unpadded. */
  function FormatPointer(address: uint64): Bytes
  {
    "0x" + Numeral(address as nat, 16)
  }

  lemma FormatPointerRoundTrip(address: uint64)
    ensures |FormatPointer(address)| >= 3 && FormatPointer(address)[..2] == "0x"
    ensures Canonical(FormatPointer(address)[2..], 16)
    ensures NumeralValue(FormatPointer(address)[2..], 16) == address as int
  {
    var s := FormatPointer(address);
    assert s[2..] == Numeral(address as nat, 16);
    NumeralIsCanonical(address as nat, 16);
    NumeralRoundTrip(address as nat, 16);
  }

  /** Conversely, `0x` and a canonical lower-case hexadecimal numeral below
      2^64 is what that address prints as. */
  lemma PointerTextIsFormatted(s: Bytes)
    requires |s| >= 3 && s[..2] == "0x" && Canonical(s[2..], 16)
    requires NumeralValue(s[2..], 16) < TwoTo64
    ensures FormatPointer(NumeralValue(s[2..], 16) as uint64) == s
  {
    CanonicalIsNumeral(s[2..], 16);
    assert s == s[..2] + s[2..];
  }

  // ---------------------------------------------------------------------
  // write_escaped
  // ---------------------------------------------------------------------

  /** `isprint` in the C locale. */
  predicate IsPrint(c: Byte) { 0x20 <= c as int <= 0x7e }

  /** The escape of one byte: backslash, tab, newline and double quote get a
      two-byte escape, other printable bytes stay, and every other byte
      becomes a backslash and three octal digits. */
  function EscapeByte(c: Byte): Bytes
  {
    if c == '\\' then "\\\\"
    else if c == '\t' then "\\t"
    else if c == '\n' then "\\n"
    else if c == '"' then "\\\""
    else if IsPrint(c) then [c]
    else
      var v := c as int;
      ['\\', DigitChar((v / 64) % 8), DigitChar((v / 8) % 8), DigitChar(v % 8)]
  }

  function Escape(s: Bytes): Bytes
  {
    if s == [] then [] else EscapeByte(s[0]) + Escape(s[1..])
  }

  function Prepend(c: Byte, rest: Option<Bytes>): Option<Bytes>
  {
    match rest
    case None => None
    case Some(t) => Some([c] + t)
  }

  /** Octal digits are the digits of base 8: `DigitChar` and `DigitValue`
      below 8. */
  predicate IsOctal(c: Byte) { IsDigit(c, 8) }

  function OctalValue(c: Byte): nat
    requires IsOctal(c)
  {
    DigitValue(c).value
  }

  /** Reads an escaped string back, or None where it is not one. */
  function Unescape(s: Bytes): Option<Bytes>
    decreases |s|
  {
    if s == [] then Some([])
    else if s[0] != '\\' then
      if IsPrint(s[0]) && s[0] != '"' then Prepend(s[0], Unescape(s[1..])) else None
    else if |s| < 2 then None
    else if s[1] == '\\' then Prepend('\\', Unescape(s[2..]))
    else if s[1] == 't' then Prepend('\t', Unescape(s[2..]))
    else if s[1] == 'n' then Prepend('\n', Unescape(s[2..]))
    else if s[1] == '"' then Prepend('"', Unescape(s[2..]))
    else if |s| >= 4 && IsOctal(s[1]) && IsOctal(s[2]) && IsOctal(s[3]) then
      var v := OctalValue(s[1]) * 64 + OctalValue(s[2]) * 8 + OctalValue(s[3]);
      if v < 256 then Prepend(v as char, Unescape(s[4..])) else None
    else None
  }

  lemma {:induction false} EscapeAppend(a: Bytes, b: Bytes)
    ensures Escape(a + b) == Escape(a) + Escape(b)
  {
    if a == [] {
      assert a + b == b;
    } else {
      assert (a + b)[1..] == a[1..] + b;
      EscapeAppend(a[1..], b);
    }
  }

  /** Escaping one more byte of the input appends that byte's escape. */
  lemma EscapeExtend(s: Bytes, i: nat)
    requires i < |s|
    ensures Escape(s[..i + 1]) == Escape(s[..i]) + EscapeByte(s[i])
  {
    assert s[..i + 1] == s[..i] + [s[i]];
    EscapeAppend(s[..i], [s[i]]);
    assert [s[i]][1..] == [];
  }

  lemma UnescapeEscapeByte(c: Byte, rest: Bytes)
    ensures Unescape(EscapeByte(c) + rest) == Prepend(c, Unescape(rest))
  {
    var e := EscapeByte(c) + rest;
    if c == '\\' || c == '\t' || c == '\n' || c == '"' {
      assert e[2..] == rest;
    } else if IsPrint(c) {
      assert e[1..] == rest;
    } else {
      UnescapeOctalEscape(c, rest);
    }
  }

  lemma UnescapeOctalEscape(c: Byte, rest: Bytes)
    requires c != '\\' && c != '\t' && c != '\n' && c != '"' && !IsPrint(c)
    ensures Unescape(EscapeByte(c) + rest) == Prepend(c, Unescape(rest))
  {
    var v := c as int;
    var d1, d2, d3 := (v / 64) % 8, (v / 8) % 8, v % 8;
    assert d1 * 64 + d2 * 8 + d3 == v;
    var e := ['\\', DigitChar(d1), DigitChar(d2), DigitChar(d3)] + rest;
    DigitValueOfDigitChar(d1);
    DigitValueOfDigitChar(d2);
    DigitValueOfDigitChar(d3);
    assert EscapeByte(c) + rest == e;
    assert OctalValue(e[1]) == d1 && OctalValue(e[2]) == d2 && OctalValue(e[3]) == d3;
    assert e[4..] == rest;
  }

  /** Escaping loses nothing: the escaped form reads back as the input. */
  lemma {:induction false} UnescapeEscape(s: Bytes)
    ensures Unescape(Escape(s)) == Some(s)
  {
    if s != [] {
      UnescapeEscape(s[1..]);
      UnescapeEscapeByte(s[0], Escape(s[1..]));
      assert [s[0]] + s[1..] == s;
    }
  }

  /** The escaped form is printable throughout. */
  lemma {:induction false} EscapeIsPrintable(s: Bytes)
    ensures forall i :: 0 <= i < |Escape(s)| ==> IsPrint(Escape(s)[i])
  {
    if s != [] {
      EscapeIsPrintable(s[1..]);
      var e := EscapeByte(s[0]);
      assert forall i :: 0 <= i < |e| ==> IsPrint(e[i]);
      assert forall i :: |e| <= i < |Escape(s)| ==> Escape(s)[i] == Escape(s[1..])[i - |e|];
    }
  }

  /** A string of printable bytes other than backslash and double quote is written unchanged. */
  lemma {:induction false} EscapePassesPrintable(s: Bytes)
    requires forall i :: 0 <= i < |s| ==> IsPrint(s[i]) && s[i] != '\\' && s[i] != '"'
    ensures Escape(s) == s
  {
    if s != [] {
      EscapePassesPrintable(s[1..]);
      assert [s[0]] + s[1..] == s;
    }
  }

  /** Each byte grows into one to four bytes. */
  lemma {:induction false} EscapeLength(s: Bytes)
    ensures |s| <= |Escape(s)| <= 4 * |s|
  {
    if s != [] {
      EscapeLength(s[1..]);
    }
  }

  // ---------------------------------------------------------------------
  // Values
  // ---------------------------------------------------------------------

  /** The bytes `operator<<` produces for a value. */
  function Format(v: Value): Bytes
  {
    match v
    case Char(c) => [c]
    case String(s) => s
    case Int(i) => FormatInt32(i)
    case LongLong(l) => FormatInt64(l)
    case ULongLong(u) => FormatUInt64(u)
    case Pointer(p) => FormatPointer(p)
    case Preformatted(t) => t
  }

  // ---------------------------------------------------------------------
  // The literals the tests expect
  // ---------------------------------------------------------------------

  lemma CharAndStringVerbatim()
    ensures Format(Char('c')) == "c"
    ensures Format(String("hello")) == "hello"
  {
  }

  lemma SmallIntegerLiterals()
    ensures Format(Int(0)) == "0"
    ensures Format(Int(2425)) == "2425"
    ensures Format(Int(-2425)) == "-2425"
    ensures Format(LongLong(0)) == "0"
  {
  }

  lemma PositiveLongLongLiteral()
    ensures Format(LongLong(257257257235709)) == "257257257235709"
  {
    DecimalLiteral257();
  }

  lemma NegativeLongLongLiteral()
    ensures Format(LongLong(-257257257235709)) == "-257257257235709"
  {
    DecimalLiteral257();
  }

  lemma UInt64MaxLiteral()
    ensures Format(ULongLong(UINT64_MAX)) == "18446744073709551615"
  {
    DecimalLiteralUInt64Max();
  }

  lemma Int64MinLiteral()
    ensures Format(LongLong(INT64_MIN)) == "-9223372036854775808"
  {
    var m := Magnitude(INT64_MIN) as nat;
    assert m == 9223372036854775808;
    DecimalLiteralInt64Min();
    var digits := Numeral(m, 10);
    assert digits == "9223372036854775808";
    assert ['-'] + digits == "-9223372036854775808";
  }

  // The three long numerals above, unfolded in two stages.

  lemma DecimalLiteral257Prefix()
    ensures Numeral(257257257235, 10) == "257257257235"
  {
  }

  lemma DecimalLiteral257()
    ensures Numeral(257257257235709, 10) == "257257257235709"
  {
    DecimalLiteral257Prefix();
  }

  lemma DecimalLiteralUInt64MaxPrefix()
    ensures Numeral(1844674407370, 10) == "1844674407370"
  {
  }

  lemma DecimalLiteralUInt64Max()
    ensures Numeral(18446744073709551615, 10) == "18446744073709551615"
  {
    DecimalLiteralUInt64MaxPrefix();
  }

  lemma DecimalLiteralInt64MinPrefix()
    ensures Numeral(922337203685, 10) == "922337203685"
  {
  }

  lemma DecimalLiteralInt64Min()
    ensures Numeral(9223372036854775808, 10) == "9223372036854775808"
  {
    DecimalLiteralInt64MinPrefix();
  }

  lemma NullAndShortPointerLiterals()
    ensures Format(Pointer(0)) == "0x0"
    ensures Format(Pointer(0xbeef)) == "0xbeef"
  {
  }

  lemma LongPointerLiteral()
    ensures Format(Pointer(0xdeadbeef)) == "0xdeadbeef"
  {
    assert Numeral(0xdead, 16) == "dead";
  }

  lemma EscapePrintableLiteral()
    ensures Escape("hi") == "hi"
  {
  }

  lemma EscapeSpecialLiteral()
    ensures Escape("\\\t\n\"") == "\\\\\\t\\n\\\""
  {
  }

  lemma EscapeOctalLiteral()
    ensures Escape("\U{1}\U{8}\U{80}") == "\\001\\010\\200"
  {
  }
}
