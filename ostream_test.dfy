/** The helpers and scenarios of the raw_ostream unit test, each proved to
    produce what the test expects of it. */
module OstreamTest {
  import opened Formatting
  import opened Stream

  /** `printToString(Value)`: a string stream over an empty string, which is
      flushed when the temporary stream is destroyed right after the value is
      written. The buffer capacity is left open: the result is the same for all. */
  method PrintToString(v: Value, capacity: nat) returns (res: Bytes)
    requires capacity >= 1
    ensures res == Format(v)
  {
    var os := new RawOstream([], capacity);
    os.WriteValue(v);
    os.Flush();
    res := os.sink;
  }

  /** `printToString(Value, BytesLeftInBuffer)`: a stream over a 256-byte
      buffer is first given `256 - bytesLeft` question marks, one at a time,
      so that only `bytesLeft` bytes of room remain when the value is
      written; the part of the result after the question marks is the value's
      bytes, wherever the buffer boundary falls in them. */
  method PrintToStringBytesLeft(v: Value, bytesLeft: nat) returns (res: Bytes)
    requires bytesLeft < 256
    ensures res == Format(v)
  {
    var os := new RawOstream([], 256);
    var start := 256 - bytesLeft;
    for i := 0 to start
      invariant os.Valid() && fresh(os.buffer) && os.Capacity() == 256 && !os.unbuffered
      invariant os.Contents() == seq(i, _ => '?')
      invariant os.sink == [] && os.cursor == i
    {
      os.PutChar('?');
    }
    assert os.Capacity() - os.cursor == bytesLeft;
    os.WriteValue(v);
    var s := os.Str();
    res := s[start..];
  }

  /** `printToStringUnbuffered`: the target string is read without a flush,
      so every byte must already be there once the write returns. */
  method PrintToStringUnbuffered(v: Value, capacity: nat) returns (res: Bytes)
    requires capacity >= 1
    ensures res == Format(v)
  {
    var os := new RawOstream([], capacity);
    os.SetUnbuffered();
    os.WriteValue(v);
    res := os.sink;
  }

  /** The buffered and unbuffered test cases expect the same bytes for each value. */
  method BufferedAgreesWithUnbuffered(v: Value, capacity: nat) returns (buffered: Bytes, unbuffered: Bytes)
    requires capacity >= 1
    ensures buffered == unbuffered == Format(v)
  {
    buffered := PrintToString(v, capacity);
    unbuffered := PrintToStringUnbuffered(v, capacity);
  }

  /** The buffer-edge test: "1.20", already formatted, printed with only
      `bytesLeft` bytes of room left in the buffer. */
  method BufferEdge(bytesLeft: nat) returns (res: Bytes)
    requires bytesLeft < 256
    ensures res == "1.20"
  {
    res := PrintToStringBytesLeft(Preformatted("1.20"), bytesLeft);
  }

  /** The tiny-buffer test: with a one-byte buffer, "hello", 1 and the five
      characters of "world" come out as "hello1world". */
  method TinyBuffer(capacity: nat) returns (res: Bytes)
    requires capacity >= 1
    ensures res == "hello1world"
  {
    var os := new RawOstream([], capacity);
    os.SetBufferSize(1);
    os.WriteValue(String("hello"));
    os.WriteValue(Int(1));
    ghost var afterInt := os.Contents();
    assert afterInt == "hello" + FormatInt32(1);
    os.WriteValue(Char('w'));
    ghost var c1 := os.Contents();
    os.WriteValue(Char('o'));
    ghost var c2 := os.Contents();
    os.WriteValue(Char('r'));
    ghost var c3 := os.Contents();
    os.WriteValue(Char('l'));
    ghost var c4 := os.Contents();
    os.WriteValue(Char('d'));
    assert os.Contents() == afterInt + ['w'] + ['o'] + ['r'] + ['l'] + ['d'] by {
      assert c1 == afterInt + ['w'];
      assert c2 == c1 + ['o'];
      assert c3 == c2 + ['r'];
      assert c4 == c3 + ['l'];
    }
    HelloWorld();
    res := os.Str();
  }

  lemma HelloWorld()
    ensures "hello" + FormatInt32(1) + ['w'] + ['o'] + ['r'] + ['l'] + ['d'] == "hello1world"
  {
    assert FormatInt32(1) == "1";
  }

  /** `raw_string_ostream(Str).write_escaped(s)` on an empty string, read
      after the temporary stream has been destroyed (and so flushed). */
  method WriteEscapedToString(s: Bytes, capacity: nat) returns (res: Bytes)
    requires capacity >= 1
    ensures res == Escape(s)
  {
    var os := new RawOstream([], capacity);
    os.WriteEscaped(s);
    os.Flush();
    res := os.sink;
  }

  /** A stream operation, as a test may issue them in any order. */
  datatype Op =
    | Put(v: Value)
    | PutEscaped(s: Bytes)
    | FlushOp
    | SetBufferSizeOp(size: nat)
    | SetUnbufferedOp

  /** The bytes one operation asks the stream to write. */
  function OpBytes(op: Op): Bytes
  {
    match op
    case Put(v) => Format(v)
    case PutEscaped(s) => Escape(s)
    case _ => []
  }

  /** The bytes a sequence of operations asks the stream to write, in order. */
  function Requested(ops: seq<Op>): Bytes
  {
    if ops == [] then [] else Requested(ops[..|ops| - 1]) + OpBytes(ops[|ops| - 1])
  }

  lemma RequestedExtend(ops: seq<Op>, i: nat)
    requires i < |ops|
    ensures Requested(ops[..i + 1]) == Requested(ops[..i]) + OpBytes(ops[i])
  {
    assert ops[..i + 1][..i] == ops[..i];
  }

  /** One step of `Run`: appending the next operation's bytes keeps the
      stream's contents equal to the target followed by the request. */
  lemma RunStep(target: Bytes, done: Bytes, more: Bytes, before: Bytes, after: Bytes)
    requires before == target + done && after == before + more
    ensures after == target + (done + more)
  {
    assert target + done + more == target + (done + more);
  }

  /** Every buffer size the operations set is at least one byte. */
  predicate SizesValid(ops: seq<Op>)
  {
    forall i :: 0 <= i < |ops| ==> (ops[i].SetBufferSizeOp? ==> ops[i].size >= 1)
  }

  /** Carries out one operation on a stream. */
  method Apply(os: RawOstream, op: Op)
    requires os.Valid() && (op.SetBufferSizeOp? ==> op.size >= 1)
    modifies os, os.buffer
    ensures os.Valid() && (os.buffer == old(os.buffer) || fresh(os.buffer))
    ensures os.Contents() == old(os.Contents()) + OpBytes(op)
  {
    match op
    case Put(v) => os.WriteValue(v);
    case PutEscaped(s) => os.WriteEscaped(s);
    case FlushOp => os.Flush();
    case SetBufferSizeOp(size) => os.SetBufferSize(size);
    case SetUnbufferedOp => os.SetUnbuffered();
  }

  /** Byte preservation: whatever the starting capacity, whatever the writes,
      flushes, resizes and switches to unbuffered mode, and wherever the
      buffer boundaries fall, `str()` returns the target's original text
      followed by exactly the requested bytes, in order. */
  method Run(target: Bytes, capacity: nat, ops: seq<Op>) returns (res: Bytes)
    requires capacity >= 1 && SizesValid(ops)
    ensures res == target + Requested(ops)
  {
    var os := new RawOstream(target, capacity);
    for i := 0 to |ops|
      invariant os.Valid() && fresh(os.buffer)
      invariant os.Contents() == target + Requested(ops[..i])
    {
      ghost var c0 := os.Contents();
      Apply(os, ops[i]);
      RequestedExtend(ops, i);
      RunStep(target, Requested(ops[..i]), OpBytes(ops[i]), c0, os.Contents());
    }
    assert ops[..|ops|] == ops;
    res := os.Str();
  }
}
