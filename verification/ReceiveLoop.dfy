/** The session's receive loop: bytes arrive in any chunks, frames are decoded and dispatched. */
module ReceiveLoop {
  import opened Bytes
  import opened Frames
  import opened Transport

  /** A growable byte buffer with frames written at its end and decoded from its front. */
  class FrameBuffer {
    var data: seq<byte>

    constructor ()
      ensures data == []
    {
      data := [];
    }

    method Extend(more: seq<byte>)
      modifies this
      ensures data == old(data) + more
    {
      data := data + more;
    }

    method Put(f: Frame)
      modifies this
      ensures data == old(data) + Encode(f)
    {
      hide U32ToBe, U16ToBe;
      var id, length := U32ToBe(f.streamId), U16ToBe(|f.data| % 0x1_0000);
      data := data + [CommandCode(f.cmd)];
      data := data + id;
      data := data + length;
      if f.data != [] {
        data := data + f.data;
      }
      PutTogether(old(data), [CommandCode(f.cmd)], id, length, f.data);
    }

    /** Takes one frame off the front, or leaves the buffer alone. */
    method Next() returns (r: Decoded)
      modifies this
      ensures r == Decode(old(data))
      ensures data == if r.Complete? then old(data)[r.used..] else old(data)
    {
      hide U32FromBe, U16FromBe, CommandOf;
      if |data| < FRAME_HEADER_SIZE {
        return Incomplete;
      }
      var header := data[..FRAME_HEADER_SIZE];
      var cmd := CommandOf(header[0]);
      if cmd.None? {
        return UnknownCommand(header[0]);
      }
      var total := FRAME_HEADER_SIZE + U16FromBe(header[5], header[6]);
      if |data| < total {
        return Incomplete;
      }
      assert header[1..5] == data[1..5];
      var f := Frame(cmd.value, U32FromBe(header[1..5]), data[FRAME_HEADER_SIZE..total]);
      data := data[total..];
      return Complete(f, total);
    }
  }

  lemma PutTogether(a: seq<byte>, b: seq<byte>, c: seq<byte>, d: seq<byte>, e: seq<byte>)
    ensures a + b + c + d + e == a + (b + c + d + e)
    ensures e == [] ==> a + b + c + d == a + (b + c + d + e)
  {
  }

  datatype LoopEnd = Closed | EndOfStream | BadCommand(code: byte) | Refused | ReadError | Blocked

  ghost predicate AllAccepted(fs: seq<Frame>, accepts: seq<Frame> -> bool) {
    forall k :: 0 < k <= |fs| ==> accepts(fs[..k])
  }

  /**
   What a run of the loop over `bytes` must have done: dispatched the frames of `bytes` in order up to and
   including the first one the handler refuses; if none is refused and the session is not closed meanwhile,
   all of them, stopping at an unknown command exactly if `bytes` runs into one. `accepts` is the handler's
   verdict on the latest of the frames it has been given.
   */
  ghost predicate Explains(bytes: seq<byte>, accepts: seq<Frame> -> bool, dispatched: seq<Frame>, end: LoopEnd) {
    var d := DecodeAll(bytes);
    && dispatched <= d.frames
    && (forall k :: 0 < k < |dispatched| ==> accepts(dispatched[..k]))
    && (end.Refused? <==> dispatched != [] && !accepts(dispatched))
    && (!end.Refused? && !end.Closed? ==> dispatched == d.frames)
    && (end.BadCommand? <==> !end.Refused? && !end.Closed? && d.bad.Some?)
    && (end.BadCommand? ==> d.bad == Some(end.code))
  }

  /** The bytes alone decide which frames are dispatched and where an error stops the loop. */
  lemma ChunkingIndependence(bytes: seq<byte>, accepts: seq<Frame> -> bool,
                             fs: seq<Frame>, e: LoopEnd, gs: seq<Frame>, e': LoopEnd)
    requires Explains(bytes, accepts, fs, e) && Explains(bytes, accepts, gs, e')
    requires !e.Closed? && !e'.Closed?
    ensures fs == gs
    ensures e.Refused? == e'.Refused?
    ensures e.BadCommand? || e'.BadCommand? ==> e == e'
  {
    var all := DecodeAll(bytes).frames;
    assert fs == all[..|fs|] && gs == all[..|gs|];
    assert |fs| <= |gs| ==> gs[..|fs|] == fs;
    assert |gs| <= |fs| ==> fs[..|gs|] == gs;
  }

  /** The inner loop: decodes and dispatches until the buffer runs short or something stops it. */
  method Drain(buffer: FrameBuffer, before: seq<Frame>, accepts: seq<Frame> -> bool, ghost bytes: seq<byte>)
    returns (dispatched: seq<Frame>, stop: Option<LoopEnd>)
    requires Progress(bytes, accepts, before, buffer.data)
    modifies buffer
    ensures stop.None? ==> Progress(bytes, accepts, dispatched, buffer.data) && Drained(buffer.data)
    ensures stop.Some? ==>
              (stop.value.BadCommand? || stop.value.Refused?) && Explains(bytes, accepts, dispatched, stop.value)
  {
    hide Decode, Explains;
    dispatched, stop := before, None;
    while true
      invariant Progress(bytes, accepts, dispatched, buffer.data)
      decreases |buffer.data|
    {
      ghost var data := buffer.data;
      var r := buffer.Next();
      match r {
        case Incomplete => return;
        case UnknownCommand(code) =>
          Finish(bytes, accepts, dispatched, buffer.data, BadCommand(code));
          return dispatched, Some(BadCommand(code));
        case Complete(f, used) =>
          PrependMove(dispatched, f, DecodeAll(buffer.data));
          ghost var previous := dispatched;
          dispatched := dispatched + [f];
          assert forall k :: 0 < k <= |previous| ==> dispatched[..k] == previous[..k];
          assert dispatched[..|dispatched|] == dispatched;
          if !accepts(dispatched) {
            Finish(bytes, accepts, dispatched, buffer.data, LoopEnd.Refused);
            return dispatched, Some(LoopEnd.Refused);
          }
      }
    }
  }

  /** No complete frame is left in the buffer, and nothing bad. */
  ghost predicate Drained(rest: seq<byte>) {
    DecodeAll(rest) == Stream([], rest, None)
  }

  ghost predicate Stopped(rest: seq<byte>, dispatched: seq<Frame>, accepts: seq<Frame> -> bool, end: LoopEnd) {
    match end
    case BadCommand(code) => AllAccepted(dispatched, accepts) && DecodeAll(rest) == Stream([], rest, Some(code))
    case Refused =>
      dispatched != [] && !accepts(dispatched) && forall k :: 0 < k < |dispatched| ==> accepts(dispatched[..k])
    case _ => false
  }

  lemma PrependMove(fs: seq<Frame>, f: Frame, d: Stream)
    ensures Prepend(fs, Prepend([f], d)) == Prepend(fs + [f], d)
  {
    assert fs + ([f] + d.frames) == fs + [f] + d.frames;
  }

  /**
   `recv_loop`. `turns` is how often the close flag is still found clear, `spare` the room the buffer
   offers to each read, and `initial` what the authentication step had already read. The loop ends as closed only
   after that many reads, having dispatched every frame of the bytes before the last of them, the `early` ones.
   */
  method RecvLoop(initial: Option<seq<byte>>, source: Source, accepts: seq<Frame> -> bool,
                  spare: nat -> nat, turns: nat)
    returns (dispatched: seq<Frame>, end: LoopEnd, ghost early: nat)
    requires forall i :: spare(i) > 0
    modifies source
    ensures old(source.delivered) <= source.delivered
    ensures Explains(Start(initial) + source.delivered[|old(source.delivered)|..], accepts, dispatched, end)
    ensures (end.EndOfStream? ==> source.ended) && (end.Blocked? ==> source.script == [])
    ensures source.failures >= old(source.failures) && (end.ReadError? ==> source.failures > old(source.failures))
    ensures end.Closed? ==> |source.delivered| >= |old(source.delivered)| + turns
    ensures end.Closed? ==>
              var got := source.delivered[|old(source.delivered)|..];
              if turns == 0 then got == [] && dispatched == []
              else
                && early < |got| <= early + spare(turns - 1)
                && dispatched == DecodeAll(Start(initial) + got[..early]).frames
  {
    hide DecodeAll, Explains, Start, Progress, Drained;
    var buffer := new FrameBuffer();
    buffer.Extend(Start(initial));
    assert buffer.data == Start(initial);
    ghost var got: seq<byte> := [];
    dispatched, early := [], 0;
    assert Start(initial) + got == Start(initial);
    Begin(Start(initial), accepts);
    for turn := 0 to turns
      invariant fresh(buffer)
      invariant source.delivered == old(source.delivered) + got
      invariant Progress(Start(initial) + got, accepts, dispatched, buffer.data)
      invariant source.failures == old(source.failures) && |got| >= turn
      invariant turn == 0 ==> got == [] && dispatched == []
      invariant turn > 0 ==>
                  && early < |got| <= early + spare(turn - 1)
                  && dispatched == DecodeAll(Start(initial) + got[..early]).frames
    {
      ghost var rest := buffer.data;
      var stop: Option<LoopEnd>;
      dispatched, stop := Drain(buffer, dispatched, accepts, Start(initial) + got);
      assert source.delivered[|old(source.delivered)|..] == got;
      if stop.Some? {
        return dispatched, stop.value, early;
      }
      var r := source.Await(spare(turn));
      if !r.Ready? || r.value == [] {
        end := if r.Pending? then Blocked else if r.Failed? then ReadError else EndOfStream;
        assert source.delivered[|old(source.delivered)|..] == got;
        Pause(Start(initial) + got, accepts, dispatched, buffer.data, end);
        return;
      }
      AllDispatched(Start(initial) + got, accepts, dispatched, buffer.data);
      Continue(Start(initial) + got, accepts, dispatched, buffer.data, r.value);
      assert Start(initial) + (got + r.value) == Start(initial) + got + r.value;
      buffer.Extend(r.value);
      early := |got|;
      assert (got + r.value)[..early] == got;
      got := got + r.value;
    }
    assert source.delivered[|old(source.delivered)|..] == got;
    Pause(Start(initial) + got, accepts, dispatched, buffer.data, Closed);
    return dispatched, Closed, early;
  }

  lemma AllDispatched(bytes: seq<byte>, accepts: seq<Frame> -> bool, dispatched: seq<Frame>, rest: seq<byte>)
    requires Progress(bytes, accepts, dispatched, rest) && Drained(rest)
    ensures dispatched == DecodeAll(bytes).frames
  {
    hide DecodeAll;
    assert dispatched + [] == dispatched;
  }

  function Start(initial: Option<seq<byte>>): seq<byte> {
    if initial.Some? then initial.value else []
  }

  /** The loop's state: of `bytes`, the frames dispatched and then `rest`. */
  ghost predicate Progress(bytes: seq<byte>, accepts: seq<Frame> -> bool, dispatched: seq<Frame>, rest: seq<byte>) {
    AllAccepted(dispatched, accepts) && DecodeAll(bytes) == Prepend(dispatched, DecodeAll(rest))
  }

  lemma Begin(bytes: seq<byte>, accepts: seq<Frame> -> bool)
    ensures Progress(bytes, accepts, [], bytes)
  {
    assert [] + DecodeAll(bytes).frames == DecodeAll(bytes).frames;
  }

  lemma Continue(bytes: seq<byte>, accepts: seq<Frame> -> bool, dispatched: seq<Frame>, rest: seq<byte>,
                 more: seq<byte>)
    requires Progress(bytes, accepts, dispatched, rest) && Drained(rest)
    ensures Progress(bytes + more, accepts, dispatched, rest + more)
  {
    hide Decode;
    DecodeAllAppend(bytes, more);
    assert dispatched + [] == dispatched;
  }

  /** A run that stops itself, at an unknown command or a refused frame. */
  lemma Finish(bytes: seq<byte>, accepts: seq<Frame> -> bool, dispatched: seq<Frame>, rest: seq<byte>, end: LoopEnd)
    requires DecodeAll(bytes) == Prepend(dispatched, DecodeAll(rest)) && Stopped(rest, dispatched, accepts, end)
    ensures Explains(bytes, accepts, dispatched, end)
  {
    hide DecodeAll;
    assert dispatched[..|dispatched|] == dispatched;
  }

  /** A run that is stopped from outside. */
  lemma Pause(bytes: seq<byte>, accepts: seq<Frame> -> bool, dispatched: seq<Frame>, rest: seq<byte>, end: LoopEnd)
    requires Progress(bytes, accepts, dispatched, rest) && !end.Refused? && !end.BadCommand?
    requires end.Closed? || Drained(rest)
    ensures Explains(bytes, accepts, dispatched, end)
  {
    hide DecodeAll;
    assert dispatched[..|dispatched|] == dispatched;
  }
}
