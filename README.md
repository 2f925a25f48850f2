# raw_ostream: buffered output stream and value formatting

A model of the behaviour that LLVM's `raw_ostream` unit test pins down
(`unittests/Support/raw_ostream_test.cpp`), in three modules:

- `Formatting` (formatting.dfy): the bytes `operator<<` produces for a
  character, a string, a 32- or 64-bit signed integer, a 64-bit unsigned
  integer and a pointer, and the escaped form that `write_escaped` writes.
  These are pure functions. Each is paired with a reader and proved
  against it:
  - decimal and hexadecimal numerals against their value, in both directions;
  - signed decimals against their signed value;
  - `0x` pointers against the address;
  - escapes against an unescaper.
  The literals the test expects are proved as lemmas.
- `Stream` (stream.dfy): the class `RawOstream`. It has a fixed-capacity
  `array` buffer, a cursor counting the pending bytes, an `unbuffered` flag
  and the target string (`sink`, standing for the `std::string` of a
  `raw_string_ostream`). Its methods are:
  - `Write`, which copies into the buffer, or fills it, flushes it and hands
    whole buffer-fulls straight to the target;
  - `PutChar`, the one-byte fast path of `operator<<(char)`;
  - `WriteValue` and `WriteEscaped`;
  - `Flush`, `SetBufferSize`, `SetUnbuffered` and `Str`.
  Every method is proved against the abstract value `Contents()`, which is
  the target followed by the pending bytes. Every write appends exactly
  its bytes to `Contents()`. `Write`, `PutChar` and `WriteValue` also only
  ever append to the target, and in unbuffered mode their bytes are already
  in the target when they return.
- `OstreamTest` (ostream_test.dfy): the test's helpers and scenarios as
  methods. Each is proved to return what the test expects:
  - `printToString` for every buffer capacity;
  - the bytes-left-in-buffer overload for every `BytesLeftInBuffer < 256`;
  - `printToStringUnbuffered`;
  - the buffer-edge and tiny-buffer tests and the `write_escaped` cases.
  `Run` proves the byte-preservation theorem for any sequence of writes,
  flushes, resizes and switches to unbuffered mode, over any starting
  capacity: `str()` returns exactly the requested bytes in order.

Bytes are `char`s below 256 (type `Byte`). Integer widths are newtypes. The
magnitude of a negative 64-bit value is computed by unsigned 64-bit negation,
with the wrap-around written out, and is proved exact for `INT64_MIN`.

## Model

| member | source | states |
|---|---|---|
| Formatting.NumeralIsCanonical | unittests/Support/raw_ostream_test.cpp:60-67 | a decimal or hex numeral is all digits of its base with no leading zero, and starts with '0' exactly when the number is 0 |
| Formatting.NumeralRoundTrip | unittests/Support/raw_ostream_test.cpp:60-67 | reading the numeral of n gives back n |
| Formatting.CanonicalIsNumeral | unittests/Support/raw_ostream_test.cpp:60-67 | every canonical numeral is the numeral of its value, so numerals and numbers correspond one to one |
| Formatting.PositiveNumeralValue | unittests/Support/raw_ostream_test.cpp:60-67 | a numeral whose first digit is not '0' has a value of at least 1 |
| Formatting.NumeralLength | unittests/Support/raw_ostream_test.cpp:102 | a numeral has at most k digits if and only if the number is below base^k |
| Formatting.PowAtLeastBase | unittests/Support/raw_ostream_test.cpp:102 | base^k is at least the base for k >= 1; an arithmetic step of NumeralLength, which bounds the width that line 102 reaches |
| Formatting.IntegerWidths | unittests/Support/raw_ostream_test.cpp:102-103 | no unsigned or signed 64-bit value prints as more than 20 bytes |
| Formatting.Magnitude | unittests/Support/raw_ostream_test.cpp:103 | unsigned 64-bit negation gives the exact absolute value of every signed 64-bit value, INT64_MIN included |
| Formatting.FormatInt64RoundTrip | unittests/Support/raw_ostream_test.cpp:60-67 | a signed value prints as a canonical decimal, with '-' exactly when it is negative and never "-0", and reads back as the value |
| Formatting.SignedDecimalIsFormatted | unittests/Support/raw_ostream_test.cpp:60-67 | every signed decimal in the 64-bit range is what its value prints as |
| Formatting.FormatPointerRoundTrip | unittests/Support/raw_ostream_test.cpp:97-99 | a pointer prints as "0x" and unpadded lower-case hex digits that read back as the address |
| Formatting.PointerTextIsFormatted | unittests/Support/raw_ostream_test.cpp:97-99 | "0x" and a canonical lower-case hex numeral below 2^64 is what that address prints as |
| Formatting.DigitValue | unittests/Support/raw_ostream_test.cpp:97-99 | a character read as a digit is the digit character of that value |
| Formatting.DigitValueOfDigitChar | unittests/Support/raw_ostream_test.cpp:97-99 | the digit character of d reads back as d |
| Formatting.LastDigit | unittests/Support/raw_ostream_test.cpp:60-67 | appending digit d to m in base b gives a number whose quotient by b is m and whose remainder is d; a division step of CanonicalIsNumeral, the converse of the decimal outputs at these lines |
| Formatting.EscapeExtend | unittests/Support/raw_ostream_test.cpp:179-193 | escaping one more input byte appends exactly that byte's escape |
| Formatting.UnescapeOctalEscape | unittests/Support/raw_ostream_test.cpp:190-192 | a non-printable byte's three-digit octal escape reads back as that byte |
| Formatting.EscapeAppend | unittests/Support/raw_ostream_test.cpp:179-193 | escaping works byte by byte: the escape of a concatenation is the concatenation of the escapes |
| Formatting.UnescapeEscapeByte | unittests/Support/raw_ostream_test.cpp:186-192 | each single-byte escape (two-byte or octal) reads back as that byte |
| Formatting.UnescapeEscape | unittests/Support/raw_ostream_test.cpp:179-193 | escaping loses nothing: the escaped text reads back as the input |
| Formatting.EscapeIsPrintable | unittests/Support/raw_ostream_test.cpp:179-193 | every byte of the escaped text is printable |
| Formatting.EscapePassesPrintable | unittests/Support/raw_ostream_test.cpp:182-184 | printable bytes other than backslash and double quote are written unchanged |
| Formatting.EscapeLength | unittests/Support/raw_ostream_test.cpp:179-193 | each byte becomes one to four bytes |
| Formatting.CharAndStringVerbatim | unittests/Support/raw_ostream_test.cpp:52-57 | 'c' prints as "c" and "hello" as "hello" |
| Formatting.SmallIntegerLiterals | unittests/Support/raw_ostream_test.cpp:59-65 | 0, 2425 and -2425 print as "0", "2425" and "-2425" |
| Formatting.PositiveLongLongLiteral | unittests/Support/raw_ostream_test.cpp:66 | 257257257235709LL prints as "257257257235709" |
| Formatting.NegativeLongLongLiteral | unittests/Support/raw_ostream_test.cpp:67 | -257257257235709LL prints as "-257257257235709" |
| Formatting.UInt64MaxLiteral | unittests/Support/raw_ostream_test.cpp:102 | UINT64_MAX prints as "18446744073709551615" |
| Formatting.Int64MinLiteral | unittests/Support/raw_ostream_test.cpp:103 | INT64_MIN prints as "-9223372036854775808" |
| Formatting.DecimalLiteral257 | unittests/Support/raw_ostream_test.cpp:66 | the decimal numeral of 257257257235709 |
| Formatting.DecimalLiteral257Prefix | unittests/Support/raw_ostream_test.cpp:66 | the decimal numeral of its first twelve digits |
| Formatting.DecimalLiteralUInt64Max | unittests/Support/raw_ostream_test.cpp:102 | the decimal numeral of 2^64 - 1 |
| Formatting.DecimalLiteralUInt64MaxPrefix | unittests/Support/raw_ostream_test.cpp:102 | the decimal numeral of its first thirteen digits |
| Formatting.DecimalLiteralInt64Min | unittests/Support/raw_ostream_test.cpp:103 | the decimal numeral of 2^63 |
| Formatting.DecimalLiteralInt64MinPrefix | unittests/Support/raw_ostream_test.cpp:103 | the decimal numeral of its first twelve digits |
| Formatting.NullAndShortPointerLiterals | unittests/Support/raw_ostream_test.cpp:97-98 | null prints as "0x0" and 0xbeef as "0xbeef" |
| Formatting.LongPointerLiteral | unittests/Support/raw_ostream_test.cpp:99 | 0xdeadbeef prints as "0xdeadbeef" |
| Formatting.EscapePrintableLiteral | unittests/Support/raw_ostream_test.cpp:182-184 | "hi" is written as "hi" |
| Formatting.EscapeSpecialLiteral | unittests/Support/raw_ostream_test.cpp:186-188 | backslash, tab, newline and double quote become \\, \t, \n and \" |
| Formatting.EscapeOctalLiteral | unittests/Support/raw_ostream_test.cpp:190-192 | bytes 1, 8 and 0x80 become \001, \010 and \200 |
| Stream.RawOstream.constructor | unittests/Support/raw_ostream_test.cpp:20-23 | a buffered stream of any capacity >= 1 over a target string, with nothing pending |
| Stream.RawOstream.CopyToBuffer | unittests/Support/raw_ostream_test.cpp:37-39 | the bytes are appended to the pending bytes and the cursor advances by their number |
| Stream.RawOstream.FlushNonEmpty | unittests/Support/raw_ostream_test.cpp:172-176 | the pending bytes are appended to the target and the buffer is emptied |
| Stream.RawOstream.FillAndFlush | unittests/Support/raw_ostream_test.cpp:29-41 | filling the free space with a chunk and flushing leaves the target holding everything written plus the chunk, and the buffer empty |
| Stream.RawOstream.Flush | unittests/Support/raw_ostream_test.cpp:20-23 | the target becomes everything written so far; nothing is left pending |
| Stream.RawOstream.Write | unittests/Support/raw_ostream_test.cpp:29-41 | the bytes are appended to everything written; the target only grows; unbuffered, the target gets them at once; a buffered write that fits leaves the target alone |
| Stream.RawOstream.WriteOverflowing | unittests/Support/raw_ostream_test.cpp:161-177 | a buffered write that does not fit, across any number of buffer boundaries, still appends exactly its bytes, in order |
| Stream.RawOstream.PutChar | unittests/Support/raw_ostream_test.cpp:37-38 | writing one character appends it; while there is room it only advances the cursor |
| Stream.RawOstream.WriteValue | unittests/Support/raw_ostream_test.cpp:173-175 | printing a value appends exactly its formatted bytes |
| Stream.RawOstream.WriteEscaped | unittests/Support/raw_ostream_test.cpp:179-193 | write_escaped appends exactly the escape of its input |
| Stream.RawOstream.SetBufferSize | unittests/Support/raw_ostream_test.cpp:172 | flushes everything written, then buffers through a fresh buffer of the given size (>= 1) |
| Stream.RawOstream.SetUnbuffered | unittests/Support/raw_ostream_test.cpp:46 | flushes everything written, then drops the buffer and switches to unbuffered mode |
| Stream.RawOstream.Str | unittests/Support/raw_ostream_test.cpp:40 | flushes and returns everything written so far |
| OstreamTest.PrintToString | unittests/Support/raw_ostream_test.cpp:20-24 | for every buffer capacity, the result is exactly the value's formatted bytes |
| OstreamTest.PrintToStringBytesLeft | unittests/Support/raw_ostream_test.cpp:29-41 | with any 0 <= BytesLeftInBuffer < 256 bytes of room left, the part after the question marks is exactly the value's bytes |
| OstreamTest.PrintToStringUnbuffered | unittests/Support/raw_ostream_test.cpp:43-49 | without any flush, the target already holds exactly the value's bytes |
| OstreamTest.BufferedAgreesWithUnbuffered | unittests/Support/raw_ostream_test.cpp:106-159 | buffered and unbuffered printing give the same bytes for every value |
| OstreamTest.BufferEdge | unittests/Support/raw_ostream_test.cpp:161-167 | "1.20" comes out whole with any number of bytes below 256 left in the buffer, 1, 2, 3, 4 and 10 among them |
| OstreamTest.TinyBuffer | unittests/Support/raw_ostream_test.cpp:169-177 | with a one-byte buffer, "hello", 1 and 'w' 'o' 'r' 'l' 'd' give "hello1world" |
| OstreamTest.HelloWorld | unittests/Support/raw_ostream_test.cpp:173-176 | "hello", the integer 1 and 'w' 'o' 'r' 'l' 'd' together are "hello1world" |
| OstreamTest.WriteEscapedToString | unittests/Support/raw_ostream_test.cpp:179-193 | write_escaped on a string stream leaves exactly the escape of the input in the string |
| OstreamTest.RequestedExtend | unittests/Support/raw_ostream_test.cpp:169-177 | one more operation adds exactly its bytes to those requested; the step of `Requested` that Run's loop invariant uses |
| OstreamTest.Apply | unittests/Support/raw_ostream_test.cpp:169-177 | one operation appends exactly its requested bytes to everything written |
| OstreamTest.Run | unittests/Support/raw_ostream_test.cpp:169-177 | any sequence of writes, flushes, resizes and unbuffered switches, over any starting capacity, ends with `str()` returning the target's text followed by exactly the requested bytes, in order |

## Left out

- Floating-point output (`%e` for doubles, lines 69-94 and 124-149) is not modelled: it depends on IEEE doubles and the host C library's rounding.
- `format("%.2f", 1.2)` is not modelled either. Its result "1.20" enters the model as an opaque, already formatted byte string (`Preformatted`).
- The implementation files `raw_ostream.h`, `raw_ostream.cpp`, `SmallString.h` and `Format.h` are not part of this model. The stream follows the behaviour the test relies on:
  - a write that fits is copied into the buffer, and a full buffer is flushed only when the next write does not fit;
  - otherwise the free space is filled and flushed, and from an empty buffer every whole buffer-full goes to the target directly.
- Each non-character value is handed to `Write` as one run of bytes. How the library splits a value into calls is not modelled; the bytes that result are the same either way.
- The stream's default buffer size does not appear in the test, so no value is assumed for it. The constructor takes the capacity as a parameter, and every result holds for all capacities >= 1.
- `SmallString<256>` with `raw_svector_ostream` is modelled as a stream with a 256-byte buffer over an empty target. Growth of the vector is not modelled.
- Sink error states, file-descriptor sinks, stream-to-stream chaining and real I/O are left out. The target is an in-memory byte sequence that never fails.
- The gtest harness (`TEST`, `EXPECT_EQ`) is not modelled. Each expectation is the `ensures` of the method or lemma for its scenario.
- `Value.String` models a length-delimited string, as `std::string` is (raw_ostream_test.cpp line 57). A `const char*` (line 56) ends at its first NUL byte; a `String` holding `'\0'` is written whole, and the C-string cut is not modelled. The strings the test prints contain no NUL.
- Formatting.Unescape accepts some texts that `Escape` never produces, such as an octal escape of a printable byte. So only `Unescape(Escape(s)) == Some(s)` is proved, not the converse.
