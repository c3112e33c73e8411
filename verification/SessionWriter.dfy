/** The session's writing half: frames are coalesced, padded, cut into records and put on the wire. */
module SessionWriter {
  import opened Bytes
  import opened Frames
  import opened Padding
  import opened Invisible
  import opened Wire
  import opened Transport
  import opened ReceiveLoop
  import opened Streams
  import Outbound

  class Writer {
    const sink: Sink
    const stop: u32
    const scheme: map<u32, seq<Part>>

    var sendPadding: bool
    var pktCounter: u32
    var buffering: bool
    var buffer: seq<byte>
    const writeBuf: FrameBuffer

    ghost var written: seq<Frame>   // every frame given to WriteFrame
    ghost var held: seq<Frame>      // those still in the coalescing buffer
    ghost var packets: seq<Packet>  // what was sent, packet by packet
    ghost var broken: bool          // a write has failed part way

    ghost predicate Valid()
      reads this, sink, writeBuf
    {
      && WireValid()
      && PaddingDiscipline()
      && buffer == EncodeAll(held)
      && FramesIn(packets) + held == written
    }

    ghost predicate WireValid()
      reads this, sink
    {
      && sink.Valid() && !sink.closed
      && (!broken ==> sink.accepted == WireBytes(packets))
    }

    /** Besides, the packet counter cannot overflow. */
    ghost predicate PaddingDiscipline()
      reads this
    {
      && (sendPadding ==> pktCounter == 0 || pktCounter < stop)
      && Disciplined(packets, scheme, pktCounter, stop)
    }

    constructor (sink: Sink, stop: u32, scheme: map<u32, seq<Part>>, sendPadding: bool, buffering: bool)
      requires sink.Valid() && !sink.closed && sink.accepted == []
      ensures Valid() && !broken && written == [] && held == [] && packets == []
      ensures this.sink == sink && this.stop == stop && this.scheme == scheme && fresh(writeBuf)
      ensures this.sendPadding == sendPadding && this.buffering == buffering && pktCounter == 0
    {
      hide EncodeAll, WireBytes, FramesIn, Disciplined;
      this.sink, this.stop, this.scheme := sink, stop, scheme;
      this.sendPadding, this.buffering := sendPadding, buffering;
      pktCounter, buffer := 0, [];
      written, held, packets, broken := [], [], [], false;
      writeBuf := new FrameBuffer();
      NoPackets();
      FreshIsDisciplined(scheme, stop);
      NothingEncoded();
    }

    /**
     `write_frame`, for every scheme, whatever the flags and for every outcome of the writes. A frame is held back,
     or goes out in one packet behind those held back, padded if padding is still due; padding never resumes once it
     is off. While no write has failed, the wire holds exactly the packets; with whole padding and no frame too long
     for its length field, it decodes, Waste dropped, to the frames written so far in order, less those still held
     back, and a failed write leaves a prefix of such a wire. `ReadableIff` says that whole padding is also necessary.
     */
    method WriteFrame(f: Frame) returns (r: Poll<()>)
      requires Valid()
      modifies this, sink, writeBuf
      ensures Valid()
      ensures written == old(written) + [f]
      ensures buffering == old(buffering)
      ensures buffering ==>
                && r.Ready? && held == old(held) + [f] && packets == old(packets)
                && sink.accepted == old(sink.accepted) && sendPadding == old(sendPadding)
      ensures !buffering ==>
                && held == [] && |packets| == |old(packets)| + 1 && packets[..|old(packets)|] == old(packets)
                && packets[|old(packets)|].frames == old(held) + [f]
                && packets[|old(packets)|].number ==
                   (if old(sendPadding) && old(pktCounter) + 1 < stop then Some(old(pktCounter) + 1) else None)
                && sendPadding == (old(sendPadding) && old(pktCounter) + 1 < stop)
                && pktCounter == old(pktCounter) + if old(sendPadding) then 1 else 0
      ensures old(broken) ==> broken
      ensures broken ==> old(broken) || !r.Ready?
      ensures sink.NotForNothing(r) && (r.Ready? && !buffering ==> sink.flushed == |sink.accepted|)
      ensures !broken && WholePadding(packets) && AllFit(written) ==>
                var d := DecodeAll(sink.accepted);
                d.tail == [] && d.bad.None? && DropWaste(d.frames) + DropWaste(held) == DropWaste(written)
      ensures broken && !old(broken) ==> sink.accepted <= WireBytes(packets)
      ensures broken && !old(broken) && WholePadding(packets) && AllFit(written) ==>
                DecodeAll(sink.accepted).bad.None? && Seen(sink.accepted) <= DropWaste(written)
    {
      hide Encode, EncodeAll, DecodeAll, DropWaste, WireBytes, FramesIn, WholePadding, Disciplined, AllFit;
      writeBuf.data := [];
      writeBuf.Put(f);
      assert writeBuf.data == Encode(f);
      ghost var out := held + [f];
      EncodeAllSnoc(held, f);
      Associate(FramesIn(packets), held, [f]);
      written := written + [f];
      if buffering {
        buffer := buffer + writeBuf.data;
        held := out;
        r := Ready(());
      } else {
        var data := writeBuf.data;
        if buffer != [] {
          data := buffer + writeBuf.data;
          buffer := [];
        }
        held := [];
        NothingEncoded();
        r := Transmit(data, out);
        assert FramesIn(packets) + held == written;
      }
      if WholePadding(packets) && AllFit(written) && (!broken || !old(broken)) {
        WireMeaning(sink.accepted, packets, held, written);
      }
    }

    /** The second half of `write_frame`: pads if it is still due, and writes one packet. */
    method Transmit(data: seq<byte>, ghost out: seq<Frame>) returns (r: Poll<()>)
      requires WireValid() && PaddingDiscipline()
      requires data == EncodeAll(out)
      modifies this`sendPadding, this`pktCounter, this`packets, this`broken, sink
      ensures WireValid() && PaddingDiscipline()
      ensures |packets| == |old(packets)| + 1 && packets[..|old(packets)|] == old(packets)
      ensures packets[|old(packets)|].frames == out
      ensures packets[|old(packets)|].number ==
              if old(sendPadding) && old(pktCounter) + 1 < stop then Some(old(pktCounter) + 1) else None
      ensures FramesIn(packets) == FramesIn(old(packets)) + out
      ensures old(broken) ==> broken
      ensures broken && !old(broken) ==> !r.Ready? && sink.accepted <= WireBytes(packets)
      ensures sink.NotForNothing(r) && (r.Ready? ==> sink.flushed == |sink.accepted|)
      ensures sendPadding == (old(sendPadding) && old(pktCounter) + 1 < stop)
      ensures pktCounter == old(pktCounter) + if old(sendPadding) then 1 else 0
    {
      hide Encode, EncodeAll, WireBytes, FramesIn, DrawnFrom, PacketBytes, Disciplined;
      ghost var p := Packet(out, None, []);
      var pad := false;
      if sendPadding {
        pktCounter := pktCounter + 1;
        if pktCounter < stop {
          pad := true;
        } else {
          sendPadding := false;
        }
      }
      if pad {
        p, r := WriteWithPadding(data, pktCounter, out);
      } else {
        r := sink.WriteAll(data);
        if r.Ready? {
          r := sink.Flush();
        }
        NoPadding(out, scheme);
      }
      WireSnoc(packets, p);
      DisciplinedSnoc(packets, p, scheme, old(pktCounter), pktCounter, stop);
      packets := packets + [p];
      broken := broken || sink.accepted != WireBytes(packets);
    }

    /** With bounds of at most 65535 in the scheme, the padding of every run is whole. */
    lemma BoundedSchemeIsWhole()
      requires PaddingDiscipline() && Bounded(scheme)
      ensures WholePadding(packets)
    {
      hide DrawnFrom, WholeWaste, PaddingOf, Bounded;
      forall i | 0 <= i < |packets|
        ensures WholeWaste(PaddingOf(packets[i]))
      {
        BoundedSchemePadsWhole(packets[i], scheme);
      }
    }

    /** `write_with_padding`: the payload, then the padding of a plan drawn for it; part of that if a write fails. */
    method WriteWithPadding(data: seq<byte>, pkt: u32, ghost out: seq<Frame>) returns (ghost p: Packet, r: Poll<()>)
      requires sink.Valid() && !sink.closed && data == EncodeAll(out)
      modifies sink
      ensures sink.Valid() && !sink.closed
      ensures p.frames == out && p.number == Some(pkt) && DrawnFrom(p, scheme)
      ensures old(sink.accepted) <= sink.accepted <= old(sink.accepted) + PacketBytes(p)
      ensures r.Ready? ==> sink.accepted == old(sink.accepted) + PacketBytes(p) && sink.flushed == |sink.accepted|
      ensures sink.NotForNothing(r)
    {
      hide Encode, EncodeAll, PlanFor, RecordBytes;
      var sizes := [];
      if pkt in scheme {
        sizes := GenerateRecordPayloadSizes(scheme[pkt]);
      }
      p := Packet(out, Some(pkt), sizes);
      RecordsCarryPayload(data, sizes);
      r := WriteRecords(sink, data, sizes);
      if r.Ready? {
        r := sink.Flush();
      }
    }
  }

  function FramesOf(items: seq<Item>): seq<Frame> {
    seq(|items|, i requires 0 <= i < |items| => Outbound.FrameOf(items[i]))
  }

  /** The PSH and FIN frames among all frames written; the others are control frames. */
  function StreamFrames(fs: seq<Frame>): seq<Frame> {
    if fs == [] then [] else
    var f := fs[|fs| - 1];
    StreamFrames(fs[..|fs| - 1]) + if f.cmd.Psh? || f.cmd.Fin? then [f] else []
  }

  lemma {:induction false} StreamFramesAppend(a: seq<Frame>, b: seq<Frame>)
    ensures StreamFrames(a + b) == StreamFrames(a) + StreamFrames(b)
    decreases |b|
  {
    if b == [] {
      assert a + b == a;
    } else {
      var n := |b| - 1;
      assert (a + b)[..|a| + n] == a + b[..n];
      StreamFramesAppend(a, b[..n]);
    }
  }

  /** The frames of the items, each behind the control frames `others` that other tasks write before it. */
  function Woven(items: seq<Item>, others: nat -> seq<Frame>): seq<Frame> {
    if items == [] then [] else
    var n := |items| - 1;
    Woven(items[..n], others) + (others(n) + [Outbound.FrameOf(items[n])])
  }

  /** Taking the control frames out again leaves the frames of the items. */
  lemma {:induction false} StreamFramesOfWoven(items: seq<Item>, others: nat -> seq<Frame>)
    requires forall i :: StreamFrames(others(i)) == []
    ensures StreamFrames(Woven(items, others)) == FramesOf(items)
  {
    if items == [] {
      assert FramesOf(items) == [];
    } else {
      hide StreamFrames, FramesOf;
      var n := |items| - 1;
      var f := Outbound.FrameOf(items[n]);
      StreamFramesOfWoven(items[..n], others);
      StreamFramesAppend(Woven(items[..n], others), others(n) + [f]);
      StreamFramesAppend(others(n), [f]);
      OneItem(items[n]);
      FramesOfSnoc(items);
    }
  }

  lemma FramesOfSnoc(items: seq<Item>)
    requires items != []
    ensures FramesOf(items) == FramesOf(items[..|items| - 1]) + [Outbound.FrameOf(items[|items| - 1])]
  {
  }

  lemma OneItem(item: Item)
    ensures StreamFrames([Outbound.FrameOf(item)]) == [Outbound.FrameOf(item)]
  {
    assert StreamFrames([Outbound.FrameOf(item)][..0]) == [];
  }

  method WriteControl(w: Writer, fs: seq<Frame>)
    requires w.Valid()
    modifies w, w.sink, w.writeBuf
    ensures w.Valid() && w.written == old(w.written) + fs && w.sink.failures >= old(w.sink.failures)
  {
    hide DecodeAll, DropWaste, EncodeAll, WireBytes, FramesIn, WholePadding, Disciplined, AllFit;
    for i := 0 to |fs|
      invariant w.Valid() && w.written == old(w.written) + fs[..i] && w.sink.failures >= old(w.sink.failures)
    {
      var _ := w.WriteFrame(fs[i]);
      assert fs[..i + 1] == fs[..i] + [fs[i]];
    }
    assert fs[..|fs|] == fs;
  }

  /**
   `process_outgoing` over a run of queued items, the close flag being found set before item `closedAt`, other tasks
   writing the control frames `others(i)` before item `i`. Every item taken becomes one PSH or FIN frame, in order;
   only a failed PSH write or the flag ends the loop early. At the end, if no write broke off, all padding is whole
   and no frame too long, the wire decodes to exactly the frames written and not held back.
   */
  method ProcessOutgoing(w: Writer, items: seq<Item>, closedAt: nat, others: nat -> seq<Frame>)
    returns (taken: nat, failed: bool)
    requires w.Valid() && forall i :: StreamFrames(others(i)) == []
    modifies w, w.sink, w.writeBuf
    ensures w.Valid() && taken <= |items|
    ensures w.written == old(w.written) + Woven(items[..taken], others)
    ensures StreamFrames(w.written) == StreamFrames(old(w.written)) + FramesOf(items[..taken])
    ensures !failed ==> taken == Min(|items|, closedAt)
    ensures failed ==> taken > 0 && items[taken - 1].data != []
    ensures failed ==> w.sink.failures > old(w.sink.failures) || w.sink.script == []
    ensures !w.broken && WholePadding(w.packets) && AllFit(w.written) ==>
              Seen(w.sink.accepted) + DropWaste(w.held) == DropWaste(old(w.written) + Woven(items[..taken], others))
  {
    hide DecodeAll, DropWaste, EncodeAll, WireBytes, FramesIn, WholePadding, Disciplined, AllFit;
    hide StreamFrames, FramesOf;
    taken, failed := 0, false;
    while taken < |items| && taken < closedAt && !failed
      invariant taken <= |items| && taken <= closedAt && w.Valid()
      invariant w.written == old(w.written) + Woven(items[..taken], others)
      invariant failed ==> taken > 0 && items[taken - 1].data != []
      invariant w.sink.failures >= old(w.sink.failures)
      invariant failed ==> w.sink.failures > old(w.sink.failures) || w.sink.script == []
      decreases |items| - taken
    {
      var item := items[taken];
      var r: Poll<()>;
      WriteControl(w, others(taken));
      if item.data == [] {
        r := w.WriteFrame(Frame(Fin, item.id, []));
      } else {
        r := w.WriteFrame(Frame(Psh, item.id, item.data));
        failed := !r.Ready?;
      }
      assert items[..taken + 1][..taken] == items[..taken];
      NestRight(old(w.written), Woven(items[..taken], others), others(taken), [Outbound.FrameOf(item)]);
      taken := taken + 1;
    }
    StreamFramesAppend(old(w.written), Woven(items[..taken], others));
    StreamFramesOfWoven(items[..taken], others);
    if !w.broken && WholePadding(w.packets) && AllFit(w.written) {
      WireMeaning(w.sink.accepted, w.packets, w.held, w.written);
    }
  }

  /** Cuts `data` by the plan and writes the records one after the other. */
  method WriteRecords(sink: Sink, data: seq<byte>, sizes: seq<i32>) returns (r: Poll<()>)
    requires sink.Valid() && !sink.closed
    modifies sink
    ensures sink.Valid() && !sink.closed
    ensures old(sink.accepted) <= sink.accepted <= old(sink.accepted) + RecordBytes(Records(data, sizes))
    ensures r.Ready? <==> sink.accepted == old(sink.accepted) + RecordBytes(Records(data, sizes))
    ensures sink.NotForNothing(r)
  {
    hide RecordBytes, Cut;
    var rest := data;
    ghost var done: seq<Record> := [];
    ghost var all := Records(data, sizes);
    NothingEncoded();
    var i := 0;
    while i < |sizes|
      invariant i <= |sizes| && sink.Valid() && !sink.closed
      invariant all == done + Records(rest, sizes[i..])
      invariant sink.accepted == old(sink.accepted) + RecordBytes(done)
      invariant sink.failures >= old(sink.failures) && sink.pendings >= old(sink.pendings)
    {
      ghost var todo := Records(rest, sizes[i..]);
      assert sizes[i..][1..] == sizes[i + 1..];
      if sizes[i] == CHECK_MARK {
        if rest == [] {
          break;
        }
      } else {
        ghost var record := todo[0];
        r, rest := WriteRecord(sink, rest, ToUsize(sizes[i]));
        RecordWritten(done, record, todo[1..]);
        assert all == done + [record] + todo[1..];
        if !r.Ready? {
          PartialRecord(old(sink.accepted), RecordBytes(done), record.bytes, RecordBytes(todo[1..]), sink.accepted);
          return;
        }
        done := done + [record];
      }
      i := i + 1;
    }
    r := Ready(());
    if rest != [] {
      ghost var record := Record(None, |rest|, rest);
      assert i == |sizes| && sizes[i..] == [];
      assert all == done + [record] + [];
      r := sink.WriteAll(rest);
      RecordWritten(done, record, []);
      NothingEncoded();
      if !r.Ready? {
        PartialRecord(old(sink.accepted), RecordBytes(done), rest, [], sink.accepted);
      }
    } else {
      assert all == done;
    }
  }

  /** One planned record, and the payload left after it. */
  method WriteRecord(sink: Sink, data: seq<byte>, size: nat) returns (r: Poll<()>, rest: seq<byte>)
    requires sink.Valid() && !sink.closed
    modifies sink
    ensures sink.Valid() && !sink.closed
    ensures old(sink.accepted) <= sink.accepted <= old(sink.accepted) + Cut(data, size).bytes
    ensures r.Ready? <==> sink.accepted == old(sink.accepted) + Cut(data, size).bytes
    ensures sink.NotForNothing(r)
    ensures rest == data[Cut(data, size).payload..]
  {
    hide WasteBytes;
    if |data| > size {
      r := sink.WriteAll(data[..size]);
      rest := data[size..];
    } else if |data| > 0 {
      var padded := data;
      var room := Room(size, |data|);
      if room > 0 {
        padded := data + WasteBytes(room);
      }
      assert padded == Cut(data, size).bytes;
      r := sink.WriteAll(padded);
      rest := [];
    } else {
      r := WritePadding(sink, size);
      rest := [];
    }
  }

  /** A record of nothing but padding: a Waste header, then zeros in chunks of at most 1024. */
  method WritePadding(sink: Sink, size: nat) returns (r: Poll<()>)
    requires sink.Valid() && !sink.closed
    modifies sink
    ensures sink.Valid() && !sink.closed
    ensures old(sink.accepted) <= sink.accepted <= old(sink.accepted) + WasteBytes(size)
    ensures r.Ready? <==> sink.accepted == old(sink.accepted) + WasteBytes(size)
    ensures sink.NotForNothing(r)
  {
    hide Header;
    var header := Header(Waste, 0, size % 0x1_0000);
    r := sink.WriteAll(header);
    if !r.Ready? {
      return;
    }
    var remaining := size;
    while remaining > 0
      invariant 0 <= remaining <= size && sink.Valid() && !sink.closed && r.Ready?
      invariant sink.accepted == old(sink.accepted) + header + Zeros(size - remaining)
      invariant sink.failures >= old(sink.failures) && sink.pendings >= old(sink.pendings)
    {
      var chunk := if remaining < 1024 then remaining else 1024;
      r := sink.WriteAll(Zeros(chunk));
      if !r.Ready? {
        return;
      }
      remaining := remaining - chunk;
    }
  }

  lemma RecordWritten(done: seq<Record>, r: Record, more: seq<Record>)
    ensures RecordBytes(done + [r]) == RecordBytes(done) + r.bytes
    ensures RecordBytes(done + [r] + more) == RecordBytes(done) + r.bytes + RecordBytes(more)
  {
    RecordBytesAppend(done, [r]);
    RecordBytesAppend(done + [r], more);
    RecordBytesOne(r, []);
    assert [r] + [] == [r];
  }

  lemma {:induction false} RecordBytesAppend(a: seq<Record>, b: seq<Record>)
    ensures RecordBytes(a + b) == RecordBytes(a) + RecordBytes(b)
  {
    if a == [] {
      assert a + b == b;
    } else {
      assert (a + b)[1..] == a[1..] + b;
      RecordBytesAppend(a[1..], b);
    }
  }

  /** A write that stopped inside one record stopped inside the whole. */
  lemma PartialRecord(before: seq<byte>, done: seq<byte>, record: seq<byte>, more: seq<byte>, now: seq<byte>)
    requires before + done <= now <= before + done + record && now != before + done + record
    ensures before <= now <= before + (done + record + more) && now != before + (done + record + more)
  {
    assert before + (done + record + more) == before + done + record + more;
  }

  lemma EncodeAllSnoc(fs: seq<Frame>, f: Frame)
    ensures EncodeAll(fs + [f]) == EncodeAll(fs) + Encode(f)
  {
    EncodeAllAppend(fs, [f]);
    EncodeAllOne(f);
  }

  /** What a complete wire with whole padding, and a torn one, decode to. */
  lemma WireMeaning(wire: seq<byte>, packets: seq<Packet>, held: seq<Frame>, written: seq<Frame>)
    requires AllFit(written) && WholePadding(packets)
    requires wire <= WireBytes(packets)
    requires FramesIn(packets) + held == written
    ensures wire == WireBytes(packets) ==>
              var d := DecodeAll(wire);
              d.tail == [] && d.bad.None? && DropWaste(d.frames) + DropWaste(held) == DropWaste(written)
    ensures DecodeAll(wire).bad.None?
    ensures Seen(wire) <= DropWaste(written)
  {
    hide DecodeAll, DropWaste, WireBytes, FramesIn, WholePadding;
    var d, all, more := DecodeAll(wire), WireBytes(packets), WireBytes(packets)[|wire|..];
    assert AllFit(FramesIn(packets)) by {
      assert forall i :: 0 <= i < |FramesIn(packets)| ==> FramesIn(packets)[i] == written[i];
    }
    PacketsFitIff(packets);
    ReadWire(packets);
    DropWasteAppend(FramesIn(packets), held);
    assert all == wire + more;
    DecodeAllAppend(wire, more);
    DropWasteAppend(d.frames, DecodeAll(d.tail + more).frames);
  }
}
