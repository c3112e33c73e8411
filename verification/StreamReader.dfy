/** The buffered reader used for headers: peeked bytes stay, consumed ones go, nothing else is lost. */
module StreamReader {
  import opened Bytes
  import opened Transport

  /** The result of a read: a value, or why there is none. `Blocked` is a wait that never ends. */
  datatype Outcome<+T> = Got(value: T) | TooLong | CacheFull | Eof | Broken | Blocked

  class StreamReader {
    const buf: array<byte>
    var startOffset: nat
    var endOffset: nat

    ghost predicate Valid()
      reads this
    {
      startOffset <= endOffset <= buf.Length
    }

    /** `unparsed_data`: read from the stream and not consumed. */
    function Unparsed(): seq<byte>
      requires Valid()
      reads this, buf
    {
      buf[startOffset..endOffset]
    }

    constructor (size: nat)
      ensures Valid() && Unparsed() == [] && buf.Length == size && fresh(buf)
    {
      buf := new byte[size](_ => 0);
      startOffset, endOffset := 0, 0;
    }

    /** `reset_buf_offset`: moves the unparsed bytes to the front. */
    method Compact()
      requires Valid()
      modifies this, buf
      ensures Valid() && startOffset == 0 && Unparsed() == old(Unparsed())
    {
      if startOffset == 0 {
        return;
      }
      ghost var kept := Unparsed();
      forall i | 0 <= i < endOffset - startOffset {
        buf[i] := buf[startOffset + i];
      }
      endOffset := endOffset - startOffset;
      startOffset := 0;
      assert Unparsed() == kept;
    }

    /** The bytes this reader has pulled from the stream since `before`, after those it had. */
    twostate predicate Extended(stream: Source)
      requires old(Valid()) && Valid()
      reads this, buf, stream
    {
      && old(stream.delivered) <= stream.delivered
      && Unparsed() == old(Unparsed()) + stream.delivered[|old(stream.delivered)|..]
      && (old(stream.ended) ==> stream.ended)
      && old(stream.failures) <= stream.failures && old(stream.pendings) <= stream.pendings
    }

    /**
     `read`: one more chunk. The slice given to the stream is never empty, so no bytes is the end. It gives up only
     because the stream ended, failed, or does not go on.
     */
    method Read(stream: Source) returns (r: Outcome<()>)
      requires Valid()
      modifies this, buf, stream
      ensures Valid() && Extended(stream)
      ensures !r.Got? ==> Unparsed() == old(Unparsed())
      ensures r.Got? ==> |Unparsed()| > |old(Unparsed())| && Work(stream.script) < old(Work(stream.script))
      ensures Work(stream.script) <= old(Work(stream.script))
      ensures r.CacheFull? <==> |old(Unparsed())| == buf.Length
      ensures (r.Eof? ==> stream.ended) && (r.Blocked? ==> stream.script == [])
      ensures r.Broken? ==> stream.failures > old(stream.failures)
      ensures !r.TooLong?
    {
      assert stream.delivered[|stream.delivered|..] == [];
      if startOffset == 0 && endOffset == buf.Length {
        return CacheFull;
      }
      Compact();
      ghost var kept := Unparsed();
      while true
        invariant Valid() && startOffset == 0 && endOffset < buf.Length
        invariant Unparsed() == kept && stream.delivered == old(stream.delivered)
        invariant stream.ended == old(stream.ended)
        invariant stream.failures >= old(stream.failures) && stream.pendings >= old(stream.pendings)
        invariant Work(stream.script) <= old(Work(stream.script))
        decreases Work(stream.script)
      {
        var p := stream.Await(buf.Length - endOffset);
        match p {
          case Pending => return Blocked;
          case Failed(retry) =>
            if !retry {
              return Broken;
            }
          case Ready(data) =>
            assert stream.delivered[|old(stream.delivered)|..] == data;
            if data == [] {
              return Eof;
            }
            forall i | 0 <= i < |data| {
              buf[endOffset + i] := data[i];
            }
            endOffset := endOffset + |data|;
            assert Unparsed() == kept + data;
            return Got(());
        }
      }
    }

    /** Reads until at least `len` bytes are there. */
    method Await(stream: Source, len: nat) returns (r: Outcome<()>)
      requires Valid()
      modifies this, buf, stream
      ensures Valid() && Extended(stream)
      ensures r.Got? ==> |Unparsed()| >= len
      ensures !r.Got? ==> |Unparsed()| < len
      ensures r.CacheFull? ==> len > buf.Length
      ensures (r.Eof? ==> stream.ended) && (r.Blocked? ==> stream.script == [])
      ensures r.Broken? ==> stream.failures > old(stream.failures)
      ensures !r.TooLong?
    {
      ghost var got: seq<byte> := [];
      r := Got(());
      while endOffset - startOffset < len && r.Got?
        invariant Valid()
        invariant stream.delivered == old(stream.delivered) + got
        invariant Unparsed() == old(Unparsed()) + got
        invariant old(stream.ended) ==> stream.ended
        invariant stream.failures >= old(stream.failures) && stream.pendings >= old(stream.pendings)
        invariant !r.Got? ==> |Unparsed()| < len
        invariant r.CacheFull? ==> len > buf.Length
        invariant (r.Eof? ==> stream.ended) && (r.Blocked? ==> stream.script == [])
        invariant r.Broken? ==> stream.failures > old(stream.failures)
        invariant !r.TooLong?
        decreases Work(stream.script), r.Got?
      {
        ghost var delivered := stream.delivered;
        r := Read(stream);
        got := got + stream.delivered[|delivered|..];
      }
      assert stream.delivered[|old(stream.delivered)|..] == got;
    }

    /** `consume`: skips bytes that were peeked. */
    method Consume(len: nat)
      requires Valid() && len <= |Unparsed()|
      modifies this
      ensures Valid() && Unparsed() == old(Unparsed())[len..]
    {
      var next := startOffset + len;
      if next == endOffset {
        startOffset, endOffset := 0, 0;
      } else {
        startOffset := next;
      }
    }

    /** Takes the first `len` of the bytes at hand. */
    method Advance(len: nat) returns (slice: seq<byte>)
      requires Valid() && len <= |Unparsed()|
      modifies this
      ensures Valid() && |slice| == len && slice + Unparsed() == old(Unparsed())
    {
      var all := Unparsed();
      slice := all[..len];
      Consume(len);
      assert all[..len] + all[len..] == all;
    }

    /** `peek_slice`: shows the next `len` bytes and leaves them. */
    method PeekSlice(stream: Source, len: nat) returns (r: Outcome<seq<byte>>)
      requires Valid()
      modifies this, buf, stream
      ensures Valid() && Extended(stream)
      ensures if r.Got? then |r.value| == len && r.value <= Unparsed() else r.TooLong? || |Unparsed()| < len
      ensures r.TooLong? <==> len > buf.Length
      ensures !r.CacheFull?
      ensures (r.Eof? ==> stream.ended) && (r.Blocked? ==> stream.script == [])
      ensures r.Broken? ==> stream.failures > old(stream.failures)
    {
      if len > buf.Length {
        assert stream.delivered[|stream.delivered|..] == [];
        return TooLong;
      }
      var a := Await(stream, len);
      if a.Got? {
        r := Got(buf[startOffset..startOffset + len]);
      } else {
        r := Failure(a);
      }
    }

    /** `read_slice`: takes the next `len` bytes. */
    method ReadSlice(stream: Source, len: nat) returns (r: Outcome<seq<byte>>)
      requires Valid()
      modifies this, buf, stream
      ensures Valid() && Taken(stream, if r.Got? then r.value else [])
      ensures if r.Got? then |r.value| == len else r.TooLong? || |Unparsed()| < len
      ensures r.TooLong? <==> len > buf.Length
      ensures !r.CacheFull?
      ensures (r.Eof? ==> stream.ended) && (r.Blocked? ==> stream.script == [])
      ensures r.Broken? ==> stream.failures > old(stream.failures)
    {
      if len > buf.Length {
        assert stream.delivered[|stream.delivered|..] == [];
        return TooLong;
      }
      var a := Await(stream, len);
      if a.Got? {
        var slice := Advance(len);
        r := Got(slice);
      } else {
        r := Failure(a);
      }
    }

    /** `read_u8` */
    method ReadU8(stream: Source) returns (r: Outcome<byte>)
      requires Valid()
      modifies this, buf, stream
      ensures Valid() && Taken(stream, if r.Got? then [r.value] else [])
      ensures !r.Got? ==> Unparsed() == []
      ensures r.CacheFull? ==> buf.Length == 0
      ensures (r.Eof? ==> stream.ended) && (r.Blocked? ==> stream.script == [])
      ensures r.Broken? ==> stream.failures > old(stream.failures)
      ensures !r.TooLong?
    {
      var a := Await(stream, 1);
      if a.Got? {
        var slice := Advance(1);
        assert slice == [slice[0]];
        r := Got(slice[0]);
      } else {
        r := Failure(a);
      }
    }

    /** `read_u16_be` */
    method ReadU16Be(stream: Source) returns (r: Outcome<u16>)
      requires Valid()
      modifies this, buf, stream
      ensures Valid() && Taken(stream, if r.Got? then U16ToBe(r.value) else [])
      ensures !r.Got? ==> |Unparsed()| < 2
      ensures r.CacheFull? ==> buf.Length < 2
      ensures (r.Eof? ==> stream.ended) && (r.Blocked? ==> stream.script == [])
      ensures r.Broken? ==> stream.failures > old(stream.failures)
      ensures !r.TooLong?
    {
      hide U16ToBe, U16FromBe;
      var a := Await(stream, 2);
      if a.Got? {
        var slice := Advance(2);
        assert slice == [slice[0], slice[1]];
        U16BytesUnique(slice[0], slice[1]);
        r := Got(U16FromBe(slice[0], slice[1]));
      } else {
        r := Failure(a);
      }
    }

    /** `taken` then what is left is what there was then what was pulled from the stream. */
    twostate predicate Taken(stream: Source, taken: seq<byte>)
      requires old(Valid()) && Valid()
      reads this, buf, stream
    {
      && old(stream.delivered) <= stream.delivered
      && taken + Unparsed() == old(Unparsed()) + stream.delivered[|old(stream.delivered)|..]
      && (old(stream.ended) ==> stream.ended)
      && old(stream.failures) <= stream.failures && old(stream.pendings) <= stream.pendings
    }
  }

  function Failure<T>(a: Outcome<()>): (r: Outcome<T>)
    requires !a.Got?
    ensures !r.Got? && (r.CacheFull? <==> a.CacheFull?) && (r.Eof? <==> a.Eof?) && (r.TooLong? <==> a.TooLong?)
    ensures (r.Broken? <==> a.Broken?) && (r.Blocked? <==> a.Blocked?)
  {
    match a
    case TooLong => TooLong
    case CacheFull => CacheFull
    case Eof => Eof
    case Broken => Broken
    case Blocked => Blocked
  }
}
