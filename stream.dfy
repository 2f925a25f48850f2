/** A buffered output stream over an in-memory string, as the raw_ostream
    tests drive it: a fixed-capacity buffer with a cursor, flushed into the
    target string whenever a write does not fit, and an unbuffered mode in
    which every write goes straight to the target. */
module Stream {
  import opened Formatting

  class RawOstream {
    /** The output buffer. It has no room at all while the stream is unbuffered. */
    var buffer: array<Byte>
    /** How many bytes at the front of `buffer` are waiting to be flushed. */
    var cursor: nat
    var unbuffered: bool
    /** The target string the stream writes into. */
    var sink: Bytes

    ghost predicate Valid()
      reads this
    {
      cursor <= buffer.Length &&
      (unbuffered ==> buffer.Length == 0) &&
      (!unbuffered ==> buffer.Length >= 1)
    }

    function Capacity(): nat
      reads this
    {
      buffer.Length
    }

    /** The bytes written so far that have not reached the target yet. */
    function Pending(): Bytes
      reads this, buffer
      requires Valid()
    {
      buffer[..cursor]
    }

    /** Everything written to the stream so far, in order: what the target
        holds once the stream is flushed. */
    function Contents(): Bytes
      reads this, buffer
      requires Valid()
    {
      sink + Pending()
    }

    /** A buffered stream of the given capacity over a target string. */
    constructor (target: Bytes, capacity: nat)
      requires capacity >= 1
      ensures Valid() && fresh(buffer)
      ensures sink == target && Contents() == target
      ensures !unbuffered && Capacity() == capacity
    {
      buffer := new Byte[capacity];
      cursor := 0;
      unbuffered := false;
      sink := target;
    }

    /** Appends `src` to the pending bytes; the caller makes sure it fits. */
    method CopyToBuffer(src: Bytes)
      requires Valid() && cursor + |src| <= buffer.Length
      modifies this`cursor, buffer
      ensures Valid() && cursor == old(cursor) + |src|
      ensures Pending() == old(Pending()) + src
    {
      for i := 0 to |src|
        invariant cursor == old(cursor)
        invariant buffer[..cursor] == old(buffer[..cursor])
        invariant buffer[cursor..cursor + i] == src[..i]
      {
        buffer[cursor + i] := src[i];
      }
      assert buffer[..cursor + |src|] == buffer[..cursor] + buffer[cursor..cursor + |src|];
      cursor := cursor + |src|;
    }

    /** Hands the pending bytes to the target and empties the buffer. */
    method FlushNonEmpty()
      requires Valid() && cursor > 0
      modifies this`sink, this`cursor
      ensures Valid() && cursor == 0
      ensures sink == old(sink) + old(Pending())
    {
      sink := sink + buffer[..cursor];
      cursor := 0;
    }

    method Flush()
      requires Valid()
      modifies this`sink, this`cursor
      ensures Valid() && cursor == 0
      ensures sink == old(Contents())
    {
      if cursor > 0 {
        FlushNonEmpty();
      }
    }

    /** Fills the free space of the buffer with `chunk` and flushes it. */
    method FillAndFlush(chunk: Bytes)
      requires Valid() && cursor > 0 && cursor + |chunk| == buffer.Length
      modifies this`sink, this`cursor, buffer
      ensures Valid() && cursor == 0
      ensures sink == old(Contents()) + chunk
    {
      ghost var p0 := Pending();
      CopyToBuffer(chunk);
      assert sink + (p0 + chunk) == old(Contents()) + chunk;
      FlushNonEmpty();
    }

    /** Writes `data`. Unbuffered, it goes straight to the target; buffered,
        it is copied in when it fits and otherwise goes through `WriteOverflowing`. */
    method Write(data: Bytes)
      requires Valid()
      modifies this`sink, this`cursor, buffer
      ensures Valid()
      ensures Contents() == old(Contents()) + data
      ensures old(sink) <= sink
      ensures unbuffered ==> sink == old(sink) + data
      ensures !unbuffered && old(cursor) + |data| <= Capacity() ==>
                sink == old(sink) && cursor == old(cursor) + |data|
    {
      if unbuffered {
        sink := sink + data;
      } else if cursor + |data| <= buffer.Length {
        CopyToBuffer(data);
      } else {
        WriteOverflowing(data);
      }
    }

    /** A buffered write that does not fit: the free space is filled and
        flushed, and whenever the buffer is empty every whole buffer-full is
        handed to the target directly, until the rest fits in the buffer. */
    method WriteOverflowing(data: Bytes)
      requires Valid() && !unbuffered
      modifies this`sink, this`cursor, buffer
      ensures Valid()
      ensures Contents() == old(Contents()) + data
      ensures old(sink) <= sink
    {
      ghost var goal := Contents() + data;
      ghost var sink0 := sink;
      var rest := data;
      while cursor + |rest| > buffer.Length
        invariant Valid()
        invariant Contents() + rest == goal
        invariant sink0 <= sink
        decreases |rest|, cursor
      {
        var free := buffer.Length - cursor;
        ghost var c0 := Contents();
        if cursor == 0 {
          assert |rest| % free < free;
          var whole := |rest| - |rest| % free;
          var chunk, tail := rest[..whole], rest[whole..];
          assert chunk + tail == rest;
          assert c0 == sink;
          sink := sink + chunk;
          rest := tail;
          assert Contents() == c0 + chunk;
          assert c0 + chunk + tail == c0 + (chunk + tail);
        } else {
          var chunk, tail := rest[..free], rest[free..];
          assert chunk + tail == rest;
          FillAndFlush(chunk);
          rest := tail;
          assert c0 + chunk + tail == c0 + (chunk + tail);
        }
      }
      ghost var p1 := Pending();
      CopyToBuffer(rest);
      assert sink + (p1 + rest) == sink + p1 + rest;
    }

    /** `operator<<(char)`: stores the byte in place when there is room,
        and otherwise goes through `Write`. */
    method PutChar(c: Byte)
      requires Valid()
      modifies this`sink, this`cursor, buffer
      ensures Valid()
      ensures Contents() == old(Contents()) + [c]
      ensures old(sink) <= sink
      ensures unbuffered ==> sink == old(sink) + [c]
      ensures !unbuffered && old(cursor) < Capacity() ==> sink == old(sink) && cursor == old(cursor) + 1
    {
      if cursor >= buffer.Length {
        Write([c]);
      } else {
        buffer[cursor] := c;
        cursor := cursor + 1;
        assert buffer[..cursor] == old(buffer[..cursor]) + [c];
      }
    }

    /** `operator<<` for every value the tests print. */
    method WriteValue(v: Value)
      requires Valid()
      modifies this`sink, this`cursor, buffer
      ensures Valid()
      ensures Contents() == old(Contents()) + Format(v)
      ensures old(sink) <= sink
      ensures unbuffered ==> sink == old(sink) + Format(v)
    {
      match v
      case Char(c) => PutChar(c);
      case _ => Write(Format(v));
    }

    /** `write_escaped`: writes the escape of each byte in turn. */
    method WriteEscaped(s: Bytes)
      requires Valid()
      modifies this`sink, this`cursor, buffer
      ensures Valid()
      ensures Contents() == old(Contents()) + Escape(s)
      ensures old(sink) <= sink
    {
      ghost var before := Contents();
      ghost var sink0 := sink;
      ghost var out: Bytes := [];
      for i := 0 to |s|
        invariant Valid()
        invariant out == Escape(s[..i])
        invariant Contents() == before + out
        invariant sink0 <= sink
      {
        var e := EscapeByte(s[i]);
        Write(e);
        assert before + out + e == before + (out + e);
        out := out + e;
        EscapeExtend(s, i);
      }
      assert s[..|s|] == s;
    }

    /** `SetBufferSize`: flushes, then buffers through a fresh buffer of
        `size` bytes (buffering is back on even if the stream was unbuffered). */
    method SetBufferSize(size: nat)
      requires Valid() && size >= 1
      modifies this
      ensures Valid() && fresh(buffer)
      ensures !unbuffered && Capacity() == size
      ensures sink == old(Contents()) && Contents() == old(Contents())
    {
      Flush();
      buffer := new Byte[size];
      unbuffered := false;
    }

    /** `SetUnbuffered`: flushes, then drops the buffer. */
    method SetUnbuffered()
      requires Valid()
      modifies this
      ensures Valid() && fresh(buffer) && unbuffered
      ensures sink == old(Contents()) && Contents() == old(Contents())
    {
      Flush();
      buffer := new Byte[0];
      unbuffered := true;
    }

    /** `str()`: flushes, then returns the target string. */
    method Str() returns (s: Bytes)
      requires Valid()
      modifies this`sink, this`cursor
      ensures Valid() && cursor == 0
      ensures s == old(Contents()) && sink == s
    {
      Flush();
      s := sink;
    }
  }
}
