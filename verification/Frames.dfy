/** AnyTLS frames: the wire format, the incremental decoder, and the decoding of a whole byte stream. */
module Frames {
  import opened Bytes

  const FRAME_HEADER_SIZE := 7

  datatype Command =
    | Waste
    | Syn
    | Psh
    | Fin
    | Settings
    | Alert
    | UpdatePaddingScheme
    | SynAck
    | HeartRequest
    | HeartResponse
    | ServerSettings

  function CommandCode(c: Command): byte {
    match c
    case Waste => 0
    case Syn => 1
    case Psh => 2
    case Fin => 3
    case Settings => 4
    case Alert => 5
    case UpdatePaddingScheme => 6
    case SynAck => 7
    case HeartRequest => 8
    case HeartResponse => 9
    case ServerSettings => 10
  }

  /** `Command::try_from`: the inverse of the codes, and nothing above ten. */
  function CommandOf(code: byte): (r: Option<Command>)
    ensures r.Some? <==> code <= 10
    ensures forall c :: CommandCode(c) == code <==> r == Some(c)
  {
    match code
    case 0 => Some(Waste)
    case 1 => Some(Syn)
    case 2 => Some(Psh)
    case 3 => Some(Fin)
    case 4 => Some(Settings)
    case 5 => Some(Alert)
    case 6 => Some(UpdatePaddingScheme)
    case 7 => Some(SynAck)
    case 8 => Some(HeartRequest)
    case 9 => Some(HeartResponse)
    case 10 => Some(ServerSettings)
    case _ => None
  }

  datatype Frame = Frame(cmd: Command, streamId: u32, data: seq<byte>)

  /** The length field is sixteen bits wide. */
  predicate Fits(f: Frame) {
    |f.data| <= 0xFFFF
  }

  /** `Frame::encode_into`, with the cast of the length to sixteen bits. */
  function Encode(f: Frame): seq<byte> {
    Header(f.cmd, f.streamId, |f.data| % 0x1_0000) + f.data
  }

  function Header(cmd: Command, streamId: u32, length: u16): (s: seq<byte>)
    ensures |s| == FRAME_HEADER_SIZE
  {
    [CommandCode(cmd)] + U32ToBe(streamId) + U16ToBe(length)
  }

  function EncodeAll(fs: seq<Frame>): seq<byte> {
    if fs == [] then [] else Encode(fs[0]) + EncodeAll(fs[1..])
  }

  datatype Decoded = Incomplete | UnknownCommand(code: byte) | Complete(frame: Frame, used: nat)

  /** `FrameCodec::decode` on the bytes at the head of the buffer. */
  function Decode(s: seq<byte>): (r: Decoded)
    ensures r.Complete? ==> FRAME_HEADER_SIZE <= r.used <= |s| && Fits(r.frame)
  {
    if |s| < FRAME_HEADER_SIZE then Incomplete else
    match CommandOf(s[0])
    case None => UnknownCommand(s[0])
    case Some(cmd) =>
      var length := U16FromBe(s[5], s[6]);
      var total := FRAME_HEADER_SIZE + length;
      if |s| < total then Incomplete
      else Complete(Frame(cmd, U32FromBe(s[1..5]), s[FRAME_HEADER_SIZE..total]), total)
  }

  /** What a whole byte stream holds: its frames, the undecoded tail, and the code it stops at, if any. */
  datatype Stream = Stream(frames: seq<Frame>, tail: seq<byte>, bad: Option<byte>)

  function DecodeAll(s: seq<byte>): Stream
    decreases |s|
  {
    match Decode(s)
    case Incomplete => Stream([], s, None)
    case UnknownCommand(code) => Stream([], s, Some(code))
    case Complete(f, used) => Prepend([f], DecodeAll(s[used..]))
  }

  function Prepend(fs: seq<Frame>, d: Stream): Stream {
    d.(frames := fs + d.frames)
  }

  // ----- one frame -----

  /** The numbers of the commands. */
  lemma CommandNumbers()
    ensures CommandOf(0) == Some(Waste) && CommandOf(1) == Some(Syn) && CommandOf(2) == Some(Psh)
    ensures CommandOf(3) == Some(Fin) && CommandOf(4) == Some(Settings) && CommandOf(5) == Some(Alert)
    ensures CommandOf(6) == Some(UpdatePaddingScheme) && CommandOf(7) == Some(SynAck)
    ensures CommandOf(8) == Some(HeartRequest) && CommandOf(9) == Some(HeartResponse)
    ensures CommandOf(10) == Some(ServerSettings)
  {
  }

  lemma HeaderSlices(code: byte, id: seq<byte>, length: seq<byte>, data: seq<byte>)
    requires |id| == 4 && |length| == 2
    ensures var s := [code] + id + length + data;
            && |s| == 7 + |data| && s[0] == code && s[1..5] == id && s[7..] == data
            && s[5] == length[0] && s[6] == length[1]
  {
  }

  /** Seven bytes of header: the command, the stream id and the length in network order; then the data. */
  lemma FrameLayout(f: Frame)
    requires Fits(f)
    ensures var s := Encode(f);
            && |s| == 7 + |f.data| && CommandOf(s[0]) == Some(f.cmd) && s[7..] == f.data
            && U32FromBe(s[1..5]) == f.streamId && U16FromBe(s[5], s[6]) == |f.data|
  {
    hide CommandOf, U32ToBe, U16ToBe, U32FromBe, U16FromBe;
    HeaderSlices(CommandCode(f.cmd), U32ToBe(f.streamId), U16ToBe(|f.data|), f.data);
  }

  /** A verdict reached on a prefix is not changed by the bytes that follow. */
  lemma DecodeStable(s: seq<byte>, more: seq<byte>)
    requires !Decode(s).Incomplete?
    ensures Decode(s + more) == Decode(s)
  {
    hide U32FromBe, U16FromBe, CommandOf;
    var total := FRAME_HEADER_SIZE + U16FromBe(s[5], s[6]);
    assert (s + more)[1..5] == s[1..5];
    if total <= |s| {
      assert (s + more)[FRAME_HEADER_SIZE..total] == s[FRAME_HEADER_SIZE..total];
    }
  }

  lemma DecodeHeader(cmd: Command, streamId: u32, length: u16, rest: seq<byte>)
    ensures Decode(Header(cmd, streamId, length) + rest) ==
            if |rest| < length then Incomplete
            else Complete(Frame(cmd, streamId, rest[..length]), FRAME_HEADER_SIZE + length)
  {
    hide U32ToBe, U32FromBe, U16ToBe, U16FromBe, CommandOf;
    var s := Header(cmd, streamId, length) + rest;
    assert s[1..5] == U32ToBe(streamId);
    if length <= |rest| {
      assert s[FRAME_HEADER_SIZE..FRAME_HEADER_SIZE + length] == rest[..length];
    }
  }

  lemma EncodeAppend(f: Frame, tail: seq<byte>)
    ensures Encode(f) + tail == Header(f.cmd, f.streamId, |f.data| % 0x1_0000) + (f.data + tail)
  {
  }

  /** Decoding gives a frame back, and leaves what follows it, exactly when its length was not cut. */
  lemma RoundTrip(f: Frame, tail: seq<byte>)
    ensures Decode(Encode(f) + tail) == Complete(f, |Encode(f)|) <==> Fits(f)
  {
    hide Decode, Header;
    EncodeAppend(f, tail);
    var length := |f.data| % 0x1_0000;
    DecodeHeader(f.cmd, f.streamId, length, f.data + tail);
    if Fits(f) {
      assert (f.data + tail)[..length] == f.data;
    }
  }

  // ----- whole streams -----

  /** Decoding may stop and resume anywhere: chunk boundaries are invisible. */
  lemma {:induction false} DecodeAllAppend(s: seq<byte>, more: seq<byte>)
    ensures var d := DecodeAll(s);
            DecodeAll(s + more) ==
            if d.bad.Some? then d.(tail := d.tail + more)
            else Prepend(d.frames, DecodeAll(d.tail + more))
    decreases |s|
  {
    hide Decode;
    match Decode(s)
    case Incomplete =>
      assert Prepend([], DecodeAll(s + more)) == DecodeAll(s + more);
    case UnknownCommand(_) =>
      DecodeStable(s, more);
    case Complete(f, used) =>
      DecodeStable(s, more);
      assert (s + more)[used..] == s[used..] + more;
      DecodeAllAppend(s[used..], more);
      var d := DecodeAll(s[used..]);
      PrependTwice(f, d.frames, DecodeAll(d.tail + more));
  }

  ghost predicate AllFit(fs: seq<Frame>) {
    forall i :: 0 <= i < |fs| ==> Fits(fs[i])
  }

  lemma DecodeAllFirst(f: Frame, rest: seq<byte>)
    requires Fits(f)
    ensures DecodeAll(Encode(f) + rest) == Prepend([f], DecodeAll(rest))
  {
    hide Decode, Encode;
    RoundTrip(f, rest);
    assert (Encode(f) + rest)[|Encode(f)|..] == rest;
  }

  lemma PrependTwice(f: Frame, fs: seq<Frame>, d: Stream)
    ensures Prepend([f], Prepend(fs, d)) == Prepend([f] + fs, d)
  {
    assert [f] + (fs + d.frames) == [f] + fs + d.frames;
  }

  lemma EncodeAllFirst(fs: seq<Frame>, tail: seq<byte>)
    requires fs != []
    ensures EncodeAll(fs) + tail == Encode(fs[0]) + (EncodeAll(fs[1..]) + tail)
  {
    hide Encode;
  }

  /** Encoded frames decode to themselves, in order, whatever follows them. */
  lemma {:induction false} DecodeEncodedAll(fs: seq<Frame>, tail: seq<byte>)
    requires AllFit(fs)
    ensures DecodeAll(EncodeAll(fs) + tail) == Prepend(fs, DecodeAll(tail))
  {
    hide Decode, Encode, DecodeAll;
    if fs == [] {
      assert EncodeAll(fs) + tail == tail;
      assert Prepend(fs, DecodeAll(tail)).frames == DecodeAll(tail).frames;
    } else {
      EncodeAllFirst(fs, tail);
      DecodeAllFirst(fs[0], EncodeAll(fs[1..]) + tail);
      DecodeEncodedAll(fs[1..], tail);
      PrependTwice(fs[0], fs[1..], DecodeAll(tail));
      assert fs == [fs[0]] + fs[1..];
    }
  }

  lemma {:induction false} EncodeAllAppend(a: seq<Frame>, b: seq<Frame>)
    ensures EncodeAll(a + b) == EncodeAll(a) + EncodeAll(b)
  {
    hide Encode;
    if a == [] {
      assert a + b == b;
    } else {
      assert (a + b)[1..] == a[1..] + b;
      EncodeAllAppend(a[1..], b);
    }
  }

  lemma EncodeAllOne(f: Frame)
    ensures EncodeAll([f]) == Encode(f)
  {
    hide Encode;
    assert EncodeAll([f][1..]) == [];
  }

  /** Decoded frames re-encode to the bytes they came from: nothing is skipped between frames. */
  lemma {:induction false} EncodeDecodedAll(s: seq<byte>)
    ensures AllFit(DecodeAll(s).frames)
    ensures EncodeAll(DecodeAll(s).frames) + DecodeAll(s).tail == s
    decreases |s|
  {
    hide Decode, Encode, DecodeAll, EncodeAll;
    DecodeAllStep(s);
    if Decode(s).Complete? {
      var Complete(f, used) := Decode(s);
      var d := DecodeAll(s[used..]);
      EncodeDecodedAll(s[used..]);
      DecodedBytes(s);
      EncodeFirst(f, d.frames);
      Associate(Encode(f), EncodeAll(d.frames), d.tail);
      assert s == s[..used] + s[used..];
    }
  }

  lemma DecodeAllStep(s: seq<byte>)
    ensures var d := Decode(s);
            if d.Complete? then DecodeAll(s) == Prepend([d.frame], DecodeAll(s[d.used..]))
            else DecodeAll(s).frames == [] && DecodeAll(s).tail == s
    ensures EncodeAll([]) + s == s
  {
    hide Decode;
  }

  lemma EncodeFirst(f: Frame, fs: seq<Frame>)
    ensures EncodeAll([f] + fs) == Encode(f) + EncodeAll(fs)
  {
    hide Encode;
    assert ([f] + fs)[1..] == fs;
  }

  lemma DecodedBytes(s: seq<byte>)
    requires Decode(s).Complete?
    ensures Encode(Decode(s).frame) == s[..Decode(s).used]
  {
    hide U32ToBe, U32FromBe, U16ToBe, U16FromBe;
    var Complete(f, used) := Decode(s);
    U32BytesUnique(U32ToBe(f.streamId), s[1..5]);
    U16BytesUnique(s[5], s[6]);
    HeaderSplit(s, used);
  }

  lemma HeaderSplit(s: seq<byte>, used: nat)
    requires FRAME_HEADER_SIZE <= used <= |s|
    ensures s[..used] == [s[0]] + s[1..5] + [s[5], s[6]] + s[FRAME_HEADER_SIZE..used]
  {
  }

  // ----- padding is transparent -----

  function DropWaste(fs: seq<Frame>): seq<Frame> {
    if fs == [] then []
    else (if fs[0].cmd.Waste? then [] else [fs[0]]) + DropWaste(fs[1..])
  }

  lemma {:induction false} DropWasteAppend(a: seq<Frame>, b: seq<Frame>)
    ensures DropWaste(a + b) == DropWaste(a) + DropWaste(b)
  {
    if a == [] {
      assert a + b == b;
    } else {
      assert (a + b)[1..] == a[1..] + b;
      DropWasteAppend(a[1..], b);
    }
  }
}
