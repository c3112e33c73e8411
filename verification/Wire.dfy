/** What the session's writer has put on the wire, packet by packet, and when a reader makes of it what was written. */
module Wire {
  import opened Bytes
  import opened Frames
  import opened Padding
  import opened Invisible

  /** Frames written together, the number of the packet if it was padded, and the plan drawn for it. */
  datatype Packet = Packet(frames: seq<Frame>, number: Option<u32>, sizes: seq<i32>)

  function PaddingOf(p: Packet): seq<byte> {
    PaddingBytes(PadLengths(|EncodeAll(p.frames)|, p.sizes))
  }

  function PacketBytes(p: Packet): seq<byte> {
    EncodeAll(p.frames) + PaddingOf(p)
  }

  function WireBytes(packets: seq<Packet>): seq<byte> {
    if packets == [] then [] else WireBytes(packets[..|packets| - 1]) + PacketBytes(packets[|packets| - 1])
  }

  function FramesIn(packets: seq<Packet>): seq<Frame> {
    if packets == [] then [] else FramesIn(packets[..|packets| - 1]) + packets[|packets| - 1].frames
  }

  /** A plan drawn from the scheme's line for the packet; no plan without a number or a line. */
  ghost predicate DrawnFrom(p: Packet, scheme: map<u32, seq<Part>>) {
    if p.number.Some? && p.number.value in scheme then PlanFor(scheme[p.number.value], p.sizes) else p.sizes == []
  }

  ghost predicate PacketsFit(packets: seq<Packet>) {
    forall i :: 0 <= i < |packets| ==> AllFit(packets[i].frames)
  }

  /** Every packet's padding is made of whole Waste frames. */
  predicate WholePadding(packets: seq<Packet>) {
    forall i :: 0 <= i < |packets| ==> WholeWaste(PaddingOf(packets[i]))
  }

  /** Plans are drawn from the scheme; packet numbers only grow, up to `counter`, and stay below `stop`. */
  ghost predicate Disciplined(packets: seq<Packet>, scheme: map<u32, seq<Part>>, counter: u32, stop: u32) {
    && (forall i :: 0 <= i < |packets| ==> DrawnFrom(packets[i], scheme))
    && (forall i :: 0 <= i < |packets| && packets[i].number.Some? ==>
          0 < packets[i].number.value <= counter && packets[i].number.value < stop)
    && (forall i, j :: 0 <= i < j < |packets| && packets[i].number.Some? && packets[j].number.Some? ==>
          packets[i].number.value < packets[j].number.value)
  }

  // ----- building the wire -----

  lemma DisciplinedSnoc(packets: seq<Packet>, p: Packet, scheme: map<u32, seq<Part>>, counter: u32, counter': u32,
                        stop: u32)
    requires Disciplined(packets, scheme, counter, stop)
    requires DrawnFrom(p, scheme) && counter <= counter'
    requires p.number.Some? ==> counter < p.number.value == counter' < stop
    ensures Disciplined(packets + [p], scheme, counter', stop)
  {
    hide DrawnFrom;
  }

  lemma WireSnoc(packets: seq<Packet>, p: Packet)
    ensures WireBytes(packets + [p]) == WireBytes(packets) + PacketBytes(p)
    ensures FramesIn(packets + [p]) == FramesIn(packets) + p.frames
  {
    hide PacketBytes;
    assert (packets + [p])[..|packets|] == packets;
  }

  lemma {:induction false} PacketsFitIff(packets: seq<Packet>)
    ensures PacketsFit(packets) <==> AllFit(FramesIn(packets))
  {
    hide Fits;
    if packets != [] {
      var before, last := packets[..|packets| - 1], packets[|packets| - 1];
      PacketsFitIff(before);
      FitBoth(FramesIn(before), last.frames);
    }
  }

  lemma FitBoth(a: seq<Frame>, b: seq<Frame>)
    ensures AllFit(a + b) <==> AllFit(a) && AllFit(b)
  {
    hide Fits;
    assert forall i :: 0 <= i < |a| ==> (a + b)[i] == a[i];
    assert forall i :: 0 <= i < |b| ==> (a + b)[|a| + i] == b[i];
  }

  lemma NoPackets()
    ensures WireBytes([]) == [] && FramesIn([]) == []
  {
  }

  lemma FreshIsDisciplined(scheme: map<u32, seq<Part>>, stop: u32)
    ensures Disciplined([], scheme, 0, stop)
  {
  }

  lemma NoPadding(frames: seq<Frame>, scheme: map<u32, seq<Part>>)
    ensures DrawnFrom(Packet(frames, None, []), scheme)
    ensures PaddingOf(Packet(frames, None, [])) == [] && PacketBytes(Packet(frames, None, [])) == EncodeAll(frames)
  {
  }

  ghost predicate Bounded(scheme: map<u32, seq<Part>>) {
    forall n :: n in scheme ==> forall q :: q in scheme[n] && q.Range? ==> q.lo <= 0xFFFF && q.hi <= 0xFFFF
  }

  /** A scheme with bounds of at most 65535 pads with whole Waste frames only. */
  lemma BoundedSchemePadsWhole(p: Packet, scheme: map<u32, seq<Part>>)
    requires DrawnFrom(p, scheme) && Bounded(scheme)
    ensures WholeWaste(PaddingOf(p))
  {
    hide PlanFor, LegalPlan, SoundPlan, WholeWaste, AlwaysUnnoticed, Unnoticed, EncodeAll, PaddingBytes;
    if p.number.Some? && p.number.value in scheme {
      BoundedSchemeIsLegal(scheme[p.number.value], p.sizes);
    } else {
      EmptyPlanIsLegal();
    }
    LegalIsSound(p.sizes, 0);
    SoundPadsWhole(|EncodeAll(p.frames)|, p.sizes, 0);
  }

  lemma EmptyPlanIsLegal()
    ensures LegalPlan([])
  {
  }

  /** So does any plan that is sound for payloads of this length. */
  lemma SoundPadsWhole(n: nat, sizes: seq<i32>, least: nat)
    requires SoundPlan(sizes, least) && n >= least
    ensures WholeWaste(PaddingBytes(PadLengths(n, sizes)))
  {
    hide WholeWaste, Unnoticed, PaddingBytes;
    PlanUnnoticedFrom(sizes, least);
    var lengths := PadLengths(n, sizes);
    assert UnnoticedFor(n, sizes);
    assert lengths[..|lengths|] == lengths;
    UnnoticedIff(PaddingBytes(lengths));
  }

  // ----- reading the wire -----

  /** A wire with whole padding decodes completely, Waste dropped, to the frames of its packets. */
  lemma {:induction false} ReadWire(packets: seq<Packet>)
    requires PacketsFit(packets) && WholePadding(packets)
    ensures var d := DecodeAll(WireBytes(packets));
            d.tail == [] && d.bad.None? && DropWaste(d.frames) == DropWaste(FramesIn(packets))
  {
    hide DecodeAll, DropWaste, EncodeAll, PaddingOf;
    if packets == [] {
      DecodeNothing();
    } else {
      var before, p := packets[..|packets| - 1], packets[|packets| - 1];
      ReadWire(before);
      var w := WireBytes(before);
      ReadAfter(w, p.frames);
      ReadPadding(w + EncodeAll(p.frames), PaddingOf(p));
      Associate(w, EncodeAll(p.frames), PaddingOf(p));
      DropWasteAppend(FramesIn(before), p.frames);
    }
  }

  lemma ReadPadding(w: seq<byte>, padding: seq<byte>)
    requires DecodeAll(w).tail == [] && DecodeAll(w).bad.None?
    ensures var d, e := DecodeAll(w + padding), DecodeAll(padding);
            d.tail == e.tail && d.bad == e.bad && DropWaste(d.frames) == Seen(w) + Seen(padding)
  {
    hide DecodeAll, DropWaste;
    DecodeAllAppend(w, padding);
    assert [] + padding == padding;
    DropWasteAppend(DecodeAll(w).frames, DecodeAll(padding).frames);
  }

  /** The wire of the first `k` packets, followed by any other frames, is read as their frames and then those. */
  ghost predicate ReadableAt(packets: seq<Packet>, k: nat)
    requires k <= |packets|
  {
    forall rest :: AllFit(rest) ==>
      Seen(WireBytes(packets[..k]) + EncodeAll(rest)) == DropWaste(FramesIn(packets[..k]) + rest)
  }

  /**
   The exact condition on a run: at every point of it, whatever is written next is read as it was written, if and
   only if the padding of every packet so far is made of whole Waste frames.
   */
  lemma {:induction false} ReadableIff(packets: seq<Packet>)
    requires PacketsFit(packets)
    ensures (forall k :: 0 <= k <= |packets| ==> ReadableAt(packets, k)) <==> WholePadding(packets)
  {
    hide ReadableAt, WholeWaste, PaddingOf;
    if packets == [] {
      ReadableStep(packets);
    } else {
      var n := |packets| - 1;
      var before := packets[..n];
      forall k | 0 <= k <= n
        ensures ReadableAt(packets, k) <==> ReadableAt(before, k)
      {
        SamePrefix(packets, n, k);
      }
      ReadableIff(before);
      if WholePadding(before) {
        ReadableStep(packets);
        assert WholePadding(packets) <==> WholeWaste(PaddingOf(packets[n]));
      }
    }
  }

  lemma SamePrefix(packets: seq<Packet>, n: nat, k: nat)
    requires k <= n <= |packets|
    ensures ReadableAt(packets, k) <==> ReadableAt(packets[..n], k)
  {
    hide DecodeAll, Seen, WireBytes, FramesIn;
    assert packets[..n][..k] == packets[..k];
  }

  /** With whole padding before it, the last packet decides. */
  lemma ReadableStep(packets: seq<Packet>)
    requires PacketsFit(packets) && WholePadding(packets[..if packets == [] then 0 else |packets| - 1])
    ensures ReadableAt(packets, |packets|) <==>
            packets == [] || WholeWaste(PaddingOf(packets[|packets| - 1]))
  {
    hide DecodeAll, DropWaste, EncodeAll, PaddingOf, Unnoticed, WireBytes, FramesIn;
    assert packets[..|packets|] == packets;
    if packets == [] {
      NoPackets();
      DecodeNothing();
      ProbeRead();
      var w := WireBytes(packets);
      ReadableRest(w, [], []);
      UnnoticedIff([]);
      assert w + [] == w;
    } else {
      var before, p := packets[..|packets| - 1], packets[|packets| - 1];
      ReadWire(before);
      assert packets == before + [p];
      WireSnoc(before, p);
      var w := WireBytes(before) + EncodeAll(p.frames);
      ReadAfter(WireBytes(before), p.frames);
      DropWasteAppend(FramesIn(before), p.frames);
      Associate(WireBytes(before), EncodeAll(p.frames), PaddingOf(p));
      ReadableRest(w, FramesIn(packets), PaddingOf(p));
      UnnoticedIff(PaddingOf(p));
    }
  }

  /** After a wire that is read completely, what follows is read right exactly if the padding goes unnoticed. */
  lemma ReadableRest(w: seq<byte>, frames: seq<Frame>, padding: seq<byte>)
    requires DecodeAll(w).tail == [] && DecodeAll(w).bad.None? && Seen(w) == DropWaste(frames)
    ensures (forall rest :: AllFit(rest) ==> Seen(w + padding + EncodeAll(rest)) == DropWaste(frames + rest))
            <==> Unnoticed(padding)
  {
    hide DecodeAll, DropWaste, EncodeAll, Seen;
    forall rest: seq<Frame>
      ensures Seen(w + padding + EncodeAll(rest)) == DropWaste(frames + rest) <==>
              Seen(padding + EncodeAll(rest)) == DropWaste(rest)
    {
      RestAfter(w, padding, EncodeAll(rest));
      DropWasteAppend(frames, rest);
      Cancel(Seen(w), Seen(padding + EncodeAll(rest)), DropWaste(rest));
    }
  }

  lemma RestAfter(w: seq<byte>, padding: seq<byte>, more: seq<byte>)
    requires DecodeAll(w).tail == [] && DecodeAll(w).bad.None?
    ensures Seen(w + padding + more) == Seen(w) + Seen(padding + more)
  {
    hide DecodeAll, DropWaste;
    ReadPadding(w, padding + more);
    Associate(w, padding, more);
  }

  // ----- a scheme that breaks it -----

  /** A packet whose one padding leaves two zeros over: the frame written next is lost. */
  lemma OverrunLosesFrame(p: Packet, length: nat)
    requires p.frames == [PROBE] && PaddingOf(p) == WasteBytes(length)
    requires (length - length % 0x1_0000) % FRAME_HEADER_SIZE == 2
    ensures Seen(WireBytes([p]) + Encode(PROBE)) == [PROBE]
    ensures DropWaste(FramesIn([p]) + [PROBE]) == [PROBE, PROBE]
  {
    hide DecodeAll, Encode, WasteBytes, PaddingOf, DropWaste;
    var e, w := Encode(PROBE), WasteBytes(length);
    EncodeAllOne(PROBE);
    assert [] + [p] == [p];
    NoPackets();
    WireSnoc([], p);
    assert WireBytes([p]) == e + w;
    TwoZerosLose(e, w, length);
    ProbeRead();
    DropWasteAppend([PROBE], [PROBE]);
    assert FramesIn([p]) == [PROBE];
  }

  /** A scheme can draw one: a lone size of 65550 pads a seven-byte packet with 65536 zeros, under a length of none. */
  lemma LargePaddingLosesFrame(p: Packet)
    requires p == Packet([PROBE], Some(1), [65550])
    ensures DrawnFrom(p, map[1 := [Range(65550, 65550)]])
    ensures Seen(WireBytes([p]) + Encode(PROBE)) == [PROBE]
    ensures DropWaste(FramesIn([p]) + [PROBE]) == [PROBE, PROBE]
  {
    hide DecodeAll, Encode, WasteBytes, PaddingBytes, Zeros, WireBytes, FramesIn, DropWaste;
    OneSize();
    EncodeAllOne(PROBE);
    assert |Encode(PROBE)| == 7 by { ProbeBytes(); }
    assert PadLengths(0, p.sizes[1..]) == [];
    assert PadLengths(7, p.sizes) == [0x1_0000];
    PaddingBytesOne(0x1_0000);
    OverrunLosesFrame(p, 0x1_0000);
  }

  lemma OneSize()
    ensures PlanFor([Range(65550, 65550)], [65550])
  {
    var parts := [Range(65550, 65550)];
    assert UsedParts(parts[1..]) == [];
    assert ToI32(65550) == 65550;
  }

  lemma TwoZerosLose(e: seq<byte>, w: seq<byte>, length: nat)
    requires e == Encode(PROBE) && w == WasteBytes(length) && (length - length % 0x1_0000) % FRAME_HEADER_SIZE == 2
    ensures Seen(e + w + e) == [PROBE]
  {
    hide DecodeAll, WasteBytes, Encode, DropWaste;
    EncodeAllOne(PROBE);
    DecodeNothing();
    ReadAfter([], [PROBE]);
    assert [] + e == e && [] + [PROBE] == [PROBE];
    ProbeRead();
    RestAfter(e, w, e);
    WasteDecodes(length);
    DecodeAllAppend(w, e);
    assert DecodeAll(w).tail == Zeros(2);
    ProbeAfterTwoZeros(e);
    DropWasteAppend(DecodeAll(w).frames, DecodeAll(Zeros(2) + e).frames);
  }

  lemma ProbeRead()
    ensures DropWaste([]) == [] && DropWaste([PROBE]) == [PROBE]
  {
    assert [PROBE][1..] == [];
  }

  lemma ProbeAfterTwoZeros(e: seq<byte>)
    requires e == Encode(PROBE)
    ensures DropWaste(DecodeAll(Zeros(2) + e).frames) == []
  {
    hide Encode, Zeros, U32FromBe;
    ProbeBytes();
    var s := Zeros(2) + e;
    TwoZeros();
    assert s == [0, 0, 2, 0, 0, 0, 1, 0, 0];
    assert |s| < FRAME_HEADER_SIZE + U16FromBe(s[5], s[6]) || DecodeAll(s).frames == [] ||
        DecodeAll(s).frames[0].cmd.Waste?;
  }

  lemma TwoZeros()
    ensures Zeros(2) == [0, 0]
  {
  }
}
