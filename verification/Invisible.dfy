/** When padding goes unnoticed: exactly which padding lengths, and which plans, leave the frames around it readable. */
module Invisible {
  import opened Bytes
  import opened Frames
  import opened Padding

  /** Whatever frames follow the bytes `p`, a reader that drops Waste sees those frames and nothing else. */
  ghost predicate Unnoticed(p: seq<byte>) {
    forall rest :: AllFit(rest) ==> Seen(p + EncodeAll(rest)) == DropWaste(rest)
  }

  /** What a reader that drops Waste makes of a wire. */
  function Seen(wire: seq<byte>): seq<Frame> {
    DropWaste(DecodeAll(wire).frames)
  }

  /** The bytes `p`, decoded on their own, are whole Waste frames. */
  predicate WholeWaste(p: seq<byte>) {
    DecodeAll(p).tail == [] && DecodeAll(p).bad.None? && Seen(p) == []
  }

  const PROBE := Frame(Psh, 1, [])

  /** Padding goes unnoticed exactly if it is made of whole Waste frames. */
  lemma UnnoticedIff(p: seq<byte>)
    ensures Unnoticed(p) <==> WholeWaste(p)
  {
    hide DecodeAll, EncodeAll, Encode, DropWaste;
    if WholeWaste(p) {
      forall rest | AllFit(rest)
        ensures Seen(p + EncodeAll(rest)) == DropWaste(rest)
      {
        ReadAfter(p, rest);
      }
    }
    if Unnoticed(p) {
      ReadNothing(p);
      assert AllFit([PROBE]);
      if !WholeWaste(p) {
        Noticed(p);
        assert false;
      }
    }
  }

  lemma ReadAfter(p: seq<byte>, rest: seq<Frame>)
    requires DecodeAll(p).tail == [] && DecodeAll(p).bad.None? && AllFit(rest)
    ensures DecodeAll(p + EncodeAll(rest)) == Stream(DecodeAll(p).frames + rest, [], None)
    ensures Seen(p + EncodeAll(rest)) == Seen(p) + DropWaste(rest)
  {
    hide DecodeAll, EncodeAll, DropWaste;
    DecodeAllAppend(p, EncodeAll(rest));
    DecodeEncodedAll(rest, []);
    DecodeNothing();
    assert [] + EncodeAll(rest) == EncodeAll(rest) == EncodeAll(rest) + [];
    assert rest + [] == rest;
    DropWasteAppend(DecodeAll(p).frames, rest);
  }

  lemma DecodeNothing()
    ensures DecodeAll([]) == Stream([], [], None)
  {
  }

  lemma ReadNothing(p: seq<byte>)
    requires Unnoticed(p)
    ensures Seen(p) == []
  {
    hide DecodeAll;
    assert AllFit([]) && EncodeAll([]) == [] && p + [] == p;
  }

  /** After padding that is not whole, the next frame is misread. */
  lemma Noticed(p: seq<byte>)
    requires Seen(p) == [] && !WholeWaste(p)
    ensures Seen(p + EncodeAll([PROBE])) != DropWaste([PROBE])
  {
    hide DecodeAll, EncodeAll, Encode;
    var d, e := DecodeAll(p), Encode(PROBE);
    EncodeAllOne(PROBE);
    DecodeAllAppend(p, e);
    if d.bad.None? {
      DecodedTail(p);
      Misread(d.tail);
      DropWasteAppend(d.frames, DecodeAll(d.tail + e).frames);
    }
  }

  lemma {:induction false} DecodedTail(p: seq<byte>)
    requires DecodeAll(p).bad.None?
    ensures Decode(DecodeAll(p).tail).Incomplete?
    decreases |p|
  {
    hide Decode;
    if Decode(p).Complete? {
      DecodedTail(p[Decode(p).used..]);
    }
  }

  /** A frame after a torn one is swallowed, at least in part. */
  lemma Misread(tail: seq<byte>)
    requires tail != [] && Decode(tail).Incomplete?
    ensures DropWaste(DecodeAll(tail + Encode(PROBE)).frames) != DropWaste([PROBE])
  {
    hide Decode, Encode, Header;
    var e := Encode(PROBE);
    var s := tail + e;
    ProbeBytes();
    if Decode(s).Complete? {
      var Complete(f, used) := Decode(s);
      TooShort(tail, e);
      DecodeShort(s[used..]);
      DecodedBytes(s);
      NotTheProbe(tail, f, used);
      assert DecodeAll(s).frames == [f];
      assert [f][1..] == [];
    }
  }

  /** The probe's first byte comes nowhere else in it, so it is not found across a boundary. */
  lemma NotTheProbe(tail: seq<byte>, f: Frame, used: nat)
    requires tail != [] && |tail| < used <= |tail| + 7 && Encode(f) == (tail + Encode(PROBE))[..used]
    ensures f != PROBE
  {
    hide Encode;
    ProbeBytes();
    assert Encode(f)[|tail|] == 2;
  }

  lemma ProbeBytes()
    ensures Encode(PROBE) == [2, 0, 0, 0, 1, 0, 0]
  {
    hide U32FromBe, U16FromBe;
    SmallWords(0);
    SmallWords(1);
  }

  lemma SmallWords(n: byte)
    ensures U16ToBe(n) == [0, n] && U32ToBe(n) == [0, 0, 0, n]
  {
    hide U32FromBe, U16FromBe;
    assert n / 0x100 == 0 && n % 0x100 == n;
    assert n / 0x1_0000 == 0 && n % 0x1_0000 == n;
  }

  /** What a prefix does not complete, is completed beyond it. */
  lemma TooShort(tail: seq<byte>, more: seq<byte>)
    requires Decode(tail).Incomplete? && Decode(tail + more).Complete?
    ensures Decode(tail + more).used > |tail|
  {
    hide CommandOf, U32FromBe, U16FromBe;
  }

  lemma DecodeShort(s: seq<byte>)
    requires |s| < FRAME_HEADER_SIZE
    ensures DecodeAll(s).frames == []
  {
  }

  // ----- one padding -----

  /** Seven zeros are an empty Waste frame: a run of zeros leaves what does not make up one. */
  lemma {:induction false} DecodeZeros(n: nat)
    ensures var d := DecodeAll(Zeros(n));
            DropWaste(d.frames) == [] && d.tail == Zeros(n % FRAME_HEADER_SIZE) && d.bad.None?
    decreases n
  {
    hide Decode, DecodeAll, Zeros, Header;
    if n < FRAME_HEADER_SIZE {
      ShortZeros(Zeros(n));
    } else {
      var rest := Zeros(n - FRAME_HEADER_SIZE);
      ZerosSplit(n, FRAME_HEADER_SIZE);
      WasteHeader();
      DecodeAllWaste(0, rest);
      assert rest[0..] == rest;
      DecodeZeros(n - FRAME_HEADER_SIZE);
    }
  }

  lemma ShortZeros(z: seq<byte>)
    requires |z| < FRAME_HEADER_SIZE
    ensures DecodeAll(z) == Stream([], z, None)
  {
  }

  lemma ZerosSplit(n: nat, k: nat)
    requires k <= n
    ensures Zeros(n) == Zeros(k) + Zeros(n - k) && Zeros(n)[k..] == Zeros(n - k)
  {
  }

  lemma WasteHeader()
    ensures Header(Waste, 0, 0) == Zeros(FRAME_HEADER_SIZE)
  {
    hide U32FromBe, U16FromBe, U32ToBe, U16ToBe;
    SmallWords(0);
  }

  lemma DecodeAllWaste(length: u16, rest: seq<byte>)
    requires length <= |rest|
    ensures var d, e := DecodeAll(Header(Waste, 0, length) + rest), DecodeAll(rest[length..]);
            DropWaste(d.frames) == DropWaste(e.frames) && d.tail == e.tail && d.bad == e.bad
  {
    hide Decode, Header;
    var s, used := Header(Waste, 0, length) + rest, FRAME_HEADER_SIZE + length;
    DecodeHeader(Waste, 0, length, rest);
    assert s[used..] == rest[length..];
    var f, d := Frame(Waste, 0, rest[..length]), DecodeAll(rest[length..]);
    assert ([f] + d.frames)[1..] == d.frames;
  }

  /** Padding that overruns its sixteen-bit length leaves zeros behind, unless they make up whole Waste frames. */
  predicate WholeLength(length: nat) {
    (length - length % 0x1_0000) % FRAME_HEADER_SIZE == 0
  }

  lemma WasteDecodes(length: nat)
    ensures var d := DecodeAll(WasteBytes(length));
            && DropWaste(d.frames) == [] && d.bad.None?
            && d.tail == Zeros((length - length % 0x1_0000) % FRAME_HEADER_SIZE)
  {
    hide DecodeAll, Header, Zeros;
    var short: u16 := length % 0x1_0000;
    DecodeAllWaste(short, Zeros(length));
    ZerosSplit(length, short);
    DecodeZeros(length - short);
  }

  /** One padding goes unnoticed exactly if what the cast cuts off its length is a multiple of seven. */
  lemma PaddingUnnoticedIff(length: nat)
    ensures Unnoticed(WasteBytes(length)) <==> WholeLength(length)
  {
    hide WasteBytes, DecodeAll, Unnoticed, Zeros, DropWaste;
    var cut := (length - length % 0x1_0000) % FRAME_HEADER_SIZE;
    WasteDecodes(length);
    UnnoticedIff(WasteBytes(length));
    assert Zeros(cut) == [] <==> cut == 0;
  }

  // ----- the paddings of a packet -----

  predicate AllWhole(lengths: seq<nat>) {
    forall i :: 0 <= i < |lengths| ==> WholeLength(lengths[i])
  }

  /** However many of its paddings have been written, they go unnoticed. */
  ghost predicate AlwaysUnnoticed(lengths: seq<nat>) {
    forall k :: 0 <= k <= |lengths| ==> Unnoticed(PaddingBytes(lengths[..k]))
  }

  /** A packet's paddings go unnoticed, at every record, exactly if each of them does. */
  lemma {:induction false} PaddingsUnnoticedIff(lengths: seq<nat>)
    ensures AlwaysUnnoticed(lengths) <==> AllWhole(lengths)
  {
    hide Unnoticed, WholeLength, PaddingBytes;
    UnnoticedIff([]);
    NothingEncoded();
    DecodeNothing();
    if lengths != [] {
      var n := |lengths| - 1;
      var before, last := lengths[..n], lengths[n];
      assert lengths == before + [last] && lengths[..n + 1] == lengths;
      assert forall k :: 0 <= k <= n ==> before[..k] == lengths[..k];
      PaddingsUnnoticedIff(before);
      if AllWhole(before) {
        assert before[..n] == before;
        OnePadding(before, last);
      }
    }
  }

  lemma OnePadding(before: seq<nat>, last: nat)
    requires Unnoticed(PaddingBytes(before))
    ensures Unnoticed(PaddingBytes(before + [last])) <==> WholeLength(last)
  {
    hide Unnoticed, WholeLength, PaddingBytes, WasteBytes, DecodeAll, DropWaste;
    var p, w := PaddingBytes(before), WasteBytes(last);
    PaddingBytesAppend(before, [last]);
    PaddingBytesOne(last);
    UnnoticedIff(p);
    UnnoticedIff(w);
    UnnoticedIff(p + w);
    PaddingUnnoticedIff(last);
    DecodeAllAppend(p, w);
    assert [] + w == w;
    DropWasteAppend(DecodeAll(p).frames, DecodeAll(w).frames);
  }

  // ----- whole plans -----

  /** The largest size that cannot overrun, when at least `least` bytes of payload are left for its record. */
  function Limit(least: nat): nat {
    if least == 0 then 0xFFFF else 0xFFFF + FRAME_HEADER_SIZE + least
  }

  /**
   A plan none of whose sizes can overrun, given at least `least` bytes of payload. After a mark some payload is left;
   after a size, what is sure to be left is so much less.
   */
  predicate SoundPlan(sizes: seq<i32>, least: nat) {
    sizes != [] ==>
      if sizes[0] == CHECK_MARK then SoundPlan(sizes[1..], if least == 0 then 1 else least)
      else ToUsize(sizes[0]) <= Limit(least) && SoundPlan(sizes[1..], Less(least, ToUsize(sizes[0])))
  }

  function Less(least: nat, size: nat): nat {
    if size < least then least - size else 0
  }

  ghost predicate WholeFor(sizes: seq<i32>, least: nat) {
    forall n :: n >= least ==> AllWhole(PadLengths(n, sizes))
  }

  /** All paddings of a plan are whole, for all payloads from a length on, exactly if it is sound from there. */
  lemma {:induction false} WholeForIff(sizes: seq<i32>, least: nat)
    ensures WholeFor(sizes, least) <==> SoundPlan(sizes, least)
    decreases |sizes|
  {
    hide WholeLength, ToUsize, Room, Limit, Less;
    if sizes != [] {
      var rest := sizes[1..];
      if sizes[0] == CHECK_MARK {
        WholeForIff(rest, if least == 0 then 1 else least);
        assert forall n: nat :: n > 0 ==> PadLengths(n, sizes) == PadLengths(n, rest);
      } else {
        var left := Less(least, ToUsize(sizes[0]));
        WholeForIff(rest, left);
        if ToUsize(sizes[0]) > Limit(least) {
          Oversize(sizes, least);
        } else if WholeFor(sizes, least) {
          RestIsWhole(sizes, least);
        } else if WholeFor(rest, left) {
          SoundIsWhole(sizes, least);
          assert false;
        }
      }
    }
  }

  /** A larger size has a payload whose padding overruns by one. */
  lemma Oversize(sizes: seq<i32>, least: nat)
    requires sizes != [] && sizes[0] != CHECK_MARK && ToUsize(sizes[0]) > Limit(least)
    ensures !WholeFor(sizes, least)
  {
    hide ToUsize;
    var size := ToUsize(sizes[0]);
    var n := if size > 0xFFFF + 8 then size - FRAME_HEADER_SIZE - 0x1_0000 else 0;
    assert !WholeLength(PadLengths(n, sizes)[0]);
    assert !AllWhole(PadLengths(n, sizes));
  }

  lemma RestIsWhole(sizes: seq<i32>, least: nat)
    requires sizes != [] && sizes[0] != CHECK_MARK && WholeFor(sizes, least)
    ensures WholeFor(sizes[1..], Less(least, ToUsize(sizes[0])))
  {
    hide WholeLength, Room, ToUsize;
    var size, rest := ToUsize(sizes[0]), sizes[1..];
    forall n | n >= Less(least, size)
      ensures AllWhole(PadLengths(n, rest))
    {
      if n > 0 {
        assert AllWhole(PadLengths(n + size, sizes));
      } else {
        var all, later := PadLengths(least, sizes), PadLengths(0, rest);
        assert AllWhole(all);
        var k := |all| - |later|;
        assert all[k..] == later;
        assert forall i :: 0 <= i < |later| ==> later[i] == all[k + i];
      }
    }
  }

  lemma SoundIsWhole(sizes: seq<i32>, least: nat)
    requires sizes != [] && sizes[0] != CHECK_MARK && WholeFor(sizes[1..], Less(least, ToUsize(sizes[0])))
    requires ToUsize(sizes[0]) <= Limit(least)
    ensures WholeFor(sizes, least)
  {
    hide ToUsize;
    var size, rest := ToUsize(sizes[0]), sizes[1..];
    forall n | n >= least
      ensures AllWhole(PadLengths(n, sizes))
    {
      if n > size {
        assert AllWhole(PadLengths(n - size, rest));
      } else {
        assert AllWhole(PadLengths(0, rest));
      }
    }
  }

  /** The paddings a plan adds to `n` bytes of payload go unnoticed, at every record. */
  ghost predicate UnnoticedFor(n: nat, sizes: seq<i32>) {
    AlwaysUnnoticed(PadLengths(n, sizes))
  }

  lemma PlanUnnoticedFrom(sizes: seq<i32>, least: nat)
    ensures (forall n :: n >= least ==> UnnoticedFor(n, sizes)) <==> SoundPlan(sizes, least)
  {
    hide AlwaysUnnoticed, AllWhole, SoundPlan;
    WholeForIff(sizes, least);
    if WholeFor(sizes, least) {
      forall n | n >= least
        ensures UnnoticedFor(n, sizes)
      {
        PaddingsUnnoticedIff(PadLengths(n, sizes));
      }
    } else {
      var n :| n >= least && !AllWhole(PadLengths(n, sizes));
      PaddingsUnnoticedIff(PadLengths(n, sizes));
      assert !UnnoticedFor(n, sizes);
    }
  }

  /** A payload is one or more encoded frames, and these may have any length from seven bytes on. */
  lemma {:induction false} PayloadOfLength(n: nat) returns (frames: seq<Frame>)
    requires n >= FRAME_HEADER_SIZE
    ensures frames != [] && AllFit(frames) && |EncodeAll(frames)| == n
  {
    hide Encode, EncodeAll, Zeros;
    var last := n <= FRAME_HEADER_SIZE + 0xFFFF;
    var f := Frame(Psh, 1, Zeros(if last then n - FRAME_HEADER_SIZE else 0xFFFF - FRAME_HEADER_SIZE));
    EncodedLength(f);
    if last {
      EncodeAllOne(f);
      frames := [f];
    } else {
      var more := PayloadOfLength(n - 0xFFFF);
      EncodeFirst(f, more);
      frames := [f] + more;
    }
  }

  lemma EncodedLength(f: Frame)
    ensures |Encode(f)| == FRAME_HEADER_SIZE + |f.data|
  {
  }

  lemma PayloadLength(frames: seq<Frame>)
    requires frames != []
    ensures |EncodeAll(frames)| >= FRAME_HEADER_SIZE
  {
    hide Encode;
    EncodedLength(frames[0]);
  }

  /** Whatever frames are written with this plan, its paddings go unnoticed, at every record. */
  ghost predicate NeverNoticed(sizes: seq<i32>) {
    forall frames :: frames != [] && AllFit(frames) ==> UnnoticedFor(|EncodeAll(frames)|, sizes)
  }

  /**
   The exact condition on a plan: whatever frames are written with it, its paddings go unnoticed, at every record, if
   and only if no size can overrun when the payload is at least one frame header long.
   */
  lemma PlanUnnoticedIff(sizes: seq<i32>)
    ensures NeverNoticed(sizes) <==> SoundPlan(sizes, FRAME_HEADER_SIZE)
  {
    hide UnnoticedFor, EncodeAll, SoundPlan;
    PlanUnnoticedFrom(sizes, FRAME_HEADER_SIZE);
    if forall n :: n >= FRAME_HEADER_SIZE ==> UnnoticedFor(n, sizes) {
      forall frames | frames != [] && AllFit(frames)
        ensures UnnoticedFor(|EncodeAll(frames)|, sizes)
      {
        PayloadLength(frames);
      }
    } else {
      var n :| n >= FRAME_HEADER_SIZE && !UnnoticedFor(n, sizes);
      var frames := PayloadOfLength(n);
      assert !UnnoticedFor(|EncodeAll(frames)|, sizes);
    }
  }

  lemma {:induction false} LegalIsSound(sizes: seq<i32>, least: nat)
    requires LegalPlan(sizes)
    ensures SoundPlan(sizes, least)
    decreases |sizes|
  {
    if sizes != [] {
      var some := if least == 0 then 1 else least;
      LegalIsSound(sizes[1..], if sizes[0] == CHECK_MARK then some else Less(least, ToUsize(sizes[0])));
    }
  }

  /** A lone size of 65549 is the largest that loses nothing. */
  lemma LargestLoneSize(size: i32)
    requires size > 0
    ensures NeverNoticed([size]) <==> size <= 65549
  {
    hide NeverNoticed;
    PlanUnnoticedIff([size]);
    assert SoundPlan([size][1..], Less(FRAME_HEADER_SIZE, size));
  }
}
