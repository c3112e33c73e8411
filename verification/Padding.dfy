/**
 Padding plans: which record sizes a written packet is cut into, and what the records then carry.
 */
module Padding {
  import opened Bytes
  import opened Frames

  /** "Stop here if the payload is used up." */
  const CHECK_MARK := -1

  /** One comma-separated part of a scheme line; `Other` is a part the code skips. */
  datatype Part = Mark | Range(lo: int, hi: int) | Other

  type i32 = n: int | -0x8000_0000 <= n < 0x8000_0000

  /** The cast of a 64-bit size to 32 bits. */
  function ToI32(n: int): i32 {
    (n + 0x8000_0000) % 0x1_0000_0000 - 0x8000_0000
  }

  predicate Used(p: Part) {
    p.Mark? || (p.Range? && p.lo > 0 && p.hi > 0)
  }

  function UsedParts(parts: seq<Part>): seq<Part> {
    if parts == [] then []
    else (if Used(parts[0]) then [parts[0]] else []) + UsedParts(parts[1..])
  }

  /** `size` is a draw for part `p`; the bounds of a range may come in either order. */
  ghost predicate Drawn(p: Part, size: i32) {
    match p
    case Mark => size == CHECK_MARK
    case Range(lo, hi) =>
      exists n :: (if lo <= hi then lo else hi) <= n <= (if lo <= hi then hi else lo) && size == ToI32(n)
    case Other => false
  }

  ghost predicate PlanFor(parts: seq<Part>, sizes: seq<i32>) {
    var used := UsedParts(parts);
    |sizes| == |used| && forall i :: 0 <= i < |sizes| ==> Drawn(used[i], sizes[i])
  }

  /** Sizes that fit a frame's sixteen-bit length. */
  predicate LegalSize(size: i32) {
    size == CHECK_MARK || 0 <= size <= 0xFFFF
  }

  predicate LegalPlan(sizes: seq<i32>) {
    forall i :: 0 <= i < |sizes| ==> LegalSize(sizes[i])
  }

  /** `generate_record_payload_sizes` on the parts of the packet's line, any draw being possible. */
  method GenerateRecordPayloadSizes(parts: seq<Part>) returns (sizes: seq<i32>)
    ensures PlanFor(parts, sizes)
  {
    sizes := [];
    for i := 0 to |parts|
      invariant PlanFor(parts[..i], sizes)
    {
      var p := parts[i];
      assert parts[..i + 1] == parts[..i] + [p];
      UsedPartsSnoc(parts[..i], p);
      if p.Mark? {
        sizes := sizes + [CHECK_MARK];
      } else if p.Range? {
        if p.lo > 0 && p.hi > 0 {
          var min, max := if p.lo <= p.hi then p.lo else p.hi, if p.lo <= p.hi then p.hi else p.lo;
          var size := min;
          if min != max {
            size :| min <= size <= max;
          }
          sizes := sizes + [ToI32(size)];
        }
      }
    }
    assert parts[..|parts|] == parts;
  }

  lemma {:induction false} UsedPartsSnoc(parts: seq<Part>, p: Part)
    ensures UsedParts(parts + [p]) == UsedParts(parts) + if Used(p) then [p] else []
  {
    if parts == [] {
      assert (parts + [p])[1..] == [];
    } else {
      assert (parts + [p])[1..] == parts[1..] + [p];
      UsedPartsSnoc(parts[1..], p);
      var first, last := if Used(parts[0]) then [parts[0]] else [], if Used(p) then [p] else [];
      assert first + (UsedParts(parts[1..]) + last) == first + UsedParts(parts[1..]) + last;
    }
  }

  /** What a line of one part may draw. */
  lemma PlanOfOne(p: Part, sizes: seq<i32>)
    ensures p.Mark? ==> (PlanFor([p], sizes) <==> sizes == [-1])
    ensures p.Range? && p.lo > 0 && p.hi > 0 ==>
              (PlanFor([p], sizes) <==> |sizes| == 1 && Drawn(p, sizes[0]))
    ensures p.Other? || (p.Range? && (p.lo <= 0 || p.hi <= 0)) ==> (PlanFor([p], sizes) <==> sizes == [])
  {
    hide Drawn;
    assert UsedParts([p][1..]) == [];
    if p.Mark? {
      MarkDrawn(sizes);
    }
  }

  lemma MarkDrawn(sizes: seq<i32>)
    ensures |sizes| == 1 ==> (Drawn(Mark, sizes[0]) <==> sizes == [-1])
  {
  }

  /** A size drawn for a range that fits 32 bits lies between its bounds, in whichever order they come. */
  lemma RangeDrawn(lo: int, hi: int, size: i32)
    requires 0 < lo < 0x8000_0000 && 0 < hi < 0x8000_0000
    ensures Drawn(Range(lo, hi), size) <==> lo <= size <= hi || hi <= size <= lo
  {
    if lo <= size <= hi || hi <= size <= lo {
      assert size == ToI32(size);
    }
  }

  /** The parts of a line are drawn one after the other. */
  lemma PlanAppend(a: seq<Part>, b: seq<Part>, s: seq<i32>, t: seq<i32>)
    requires PlanFor(a, s) && PlanFor(b, t)
    ensures PlanFor(a + b, s + t)
  {
    hide Drawn;
    UsedPartsAppend(a, b);
  }

  lemma {:induction false} UsedPartsAppend(a: seq<Part>, b: seq<Part>)
    ensures UsedParts(a + b) == UsedParts(a) + UsedParts(b)
  {
    hide Used;
    if a == [] {
      assert a + b == b;
    } else {
      assert (a + b)[1..] == a[1..] + b && (a + b)[0] == a[0];
      UsedPartsAppend(a[1..], b);
      Associate(if Used(a[0]) then [a[0]] else [], UsedParts(a[1..]), UsedParts(b));
    }
  }

  /** A scheme whose bounds stay within 65535 only ever yields legal plans. */
  lemma BoundedSchemeIsLegal(parts: seq<Part>, sizes: seq<i32>)
    requires PlanFor(parts, sizes)
    requires forall p :: p in parts && p.Range? ==> p.lo <= 0xFFFF && p.hi <= 0xFFFF
    ensures LegalPlan(sizes)
  {
    UsedPartsSubset(parts);
    var used := UsedParts(parts);
    forall i | 0 <= i < |sizes|
      ensures LegalSize(sizes[i])
    {
      assert used[i] in used && Drawn(used[i], sizes[i]);
    }
  }

  lemma {:induction false} UsedPartsSubset(parts: seq<Part>)
    ensures forall p :: p in UsedParts(parts) ==> p in parts && Used(p)
  {
    if parts != [] {
      UsedPartsSubset(parts[1..]);
    }
  }

  // ----- records -----

  /** One record: its planned size, if the plan gave one, how much of it is payload, and its bytes. */
  datatype Record = Record(planned: Option<nat>, payload: nat, bytes: seq<byte>)

  /** The padding a record of `payload` bytes has room for, after the header of a Waste frame. */
  function Room(size: nat, payload: nat): nat {
    if size < payload + FRAME_HEADER_SIZE then 0 else size - (payload + FRAME_HEADER_SIZE)
  }

  /** A Waste frame as the writer lays it out, with the cast of its length. */
  function WasteBytes(length: nat): (s: seq<byte>)
    ensures |s| == 7 + length
  {
    hide Header;
    Header(Waste, 0, length % 0x1_0000) + Zeros(length)
  }

  /** A negative 32-bit size other than the mark, seen as an unsigned machine word. */
  function ToUsize(size: i32): nat {
    if size >= 0 then size else 0x1_0000_0000_0000_0000 + size
  }

  /** The record a planned size makes of the payload that is left. */
  function Cut(data: seq<byte>, size: nat): (r: Record)
    ensures r.payload <= |data|
  {
    if |data| > size then Record(Some(size), size, data[..size])
    else if data != [] then
      Record(Some(size), |data|, data + if Room(size, |data|) > 0 then WasteBytes(Room(size, |data|)) else [])
    else Record(Some(size), 0, WasteBytes(size))
  }

  /** The records `write_with_padding` makes of `data` under a plan. */
  function Records(data: seq<byte>, sizes: seq<i32>): seq<Record>
    decreases |sizes|
  {
    if sizes == [] then
      if data == [] then [] else [Record(None, |data|, data)]
    else if sizes[0] == CHECK_MARK then
      if data == [] then [] else Records(data, sizes[1..])
    else
      var r := Cut(data, ToUsize(sizes[0]));
      [r] + Records(data[r.payload..], sizes[1..])
  }

  function RecordBytes(rs: seq<Record>): seq<byte> {
    if rs == [] then [] else rs[0].bytes + RecordBytes(rs[1..])
  }

  lemma RecordBytesOne(r: Record, rs: seq<Record>)
    ensures RecordBytes([r] + rs) == r.bytes + RecordBytes(rs)
  {
    assert ([r] + rs)[1..] == rs;
  }

  // ----- payload and padding -----

  /** The lengths of the paddings that a plan adds to `n` bytes of payload. */
  function PadLengths(n: nat, sizes: seq<i32>): seq<nat>
    decreases |sizes|
  {
    if sizes == [] || (sizes[0] == CHECK_MARK && n == 0) then []
    else if sizes[0] == CHECK_MARK then PadLengths(n, sizes[1..])
    else
      var size := ToUsize(sizes[0]);
      if n > size then PadLengths(n - size, sizes[1..])
      else (if n == 0 then [size] else if Room(size, n) > 0 then [Room(size, n)] else []) + PadLengths(0, sizes[1..])
  }

  function PaddingBytes(lengths: seq<nat>): seq<byte> {
    if lengths == [] then [] else WasteBytes(lengths[0]) + PaddingBytes(lengths[1..])
  }

  lemma {:induction false} PaddingBytesAppend(a: seq<nat>, b: seq<nat>)
    ensures PaddingBytes(a + b) == PaddingBytes(a) + PaddingBytes(b)
  {
    hide WasteBytes;
    if a == [] {
      assert a + b == b;
    } else {
      assert (a + b)[1..] == a[1..] + b;
      PaddingBytesAppend(a[1..], b);
    }
  }

  lemma PaddingBytesOne(length: nat)
    ensures PaddingBytes([length]) == WasteBytes(length)
  {
    hide WasteBytes;
    assert PaddingBytes([length][1..]) == [];
  }

  /** Under every plan the records carry the payload first, unbroken and unchanged, and after it only padding. */
  lemma {:induction false} RecordsCarryPayload(data: seq<byte>, sizes: seq<i32>)
    ensures RecordBytes(Records(data, sizes)) == data + PaddingBytes(PadLengths(|data|, sizes))
    decreases |sizes|
  {
    hide RecordBytes, PaddingBytes, Cut, ToUsize, Room;
    NothingEncoded();
    if sizes == [] {
      if data != [] {
        RecordBytesOne(Record(None, |data|, data), []);
        assert Records(data, sizes) == [Record(None, |data|, data)] + [];
      }
    } else if sizes[0] == CHECK_MARK {
      if data != [] {
        RecordsCarryPayload(data, sizes[1..]);
      }
    } else {
      var size := ToUsize(sizes[0]);
      var r := Cut(data, size);
      var rest := data[r.payload..];
      RecordsCarryPayload(rest, sizes[1..]);
      RecordBytesOne(r, Records(rest, sizes[1..]));
      CutCarriesPayload(data, size, PadLengths(|rest|, sizes[1..]));
    }
  }

  lemma NothingEncoded()
    ensures EncodeAll([]) == [] && RecordBytes([]) == [] && PaddingBytes([]) == []
  {
  }

  lemma CutCarriesPayload(data: seq<byte>, size: nat, more: seq<nat>)
    ensures var r := Cut(data, size);
            if |data| > size then
              r.payload == size && r.bytes + (data[size..] + PaddingBytes(more)) == data + PaddingBytes(more)
            else
              var first := if data == [] then [size] else if Room(size, |data|) > 0 then [Room(size, |data|)] else [];
              r.payload == |data| && r.bytes + ([] + PaddingBytes(more)) == data + PaddingBytes(first + more)
  {
    hide WasteBytes, PaddingBytes, Room;
    if |data| > size {
      assert data[..size] + (data[size..] + PaddingBytes(more)) == data + PaddingBytes(more);
    } else {
      var length := if data == [] then size else Room(size, |data|);
      PaddingBytesAppend([length], more);
      PaddingBytesOne(length);
      Associate(data, WasteBytes(length), PaddingBytes(more));
      assert [] + more == more && [] + WasteBytes(length) == WasteBytes(length);
      assert [] + PaddingBytes(more) == PaddingBytes(more);
    }
  }

  // ----- the plan is followed -----

  /** The size a record must have, given what it was planned for. */
  ghost predicate Shaped(r: Record) {
    match r.planned
    case None => |r.bytes| == r.payload
    case Some(size) =>
      if r.payload == 0 then |r.bytes| == FRAME_HEADER_SIZE + size || (size == 0 && r.bytes == [])
      else |r.bytes| == size || (|r.bytes| == r.payload && r.payload <= size <= r.payload + FRAME_HEADER_SIZE)
  }

  lemma CutShaped(data: seq<byte>, size: nat)
    ensures var r := Cut(data, size);
            Shaped(r) && r.planned == Some(size) && r.payload == Min(size, |data|)
  {
    hide Header;
  }

  /** The sizes of a plan, without its marks. */
  function Planned(sizes: seq<i32>): seq<nat> {
    if sizes == [] then []
    else (if sizes[0] == CHECK_MARK then [] else [ToUsize(sizes[0])]) + Planned(sizes[1..])
  }

  function Sum(sizes: seq<nat>): nat {
    if sizes == [] then 0 else sizes[0] + Sum(sizes[1..])
  }

  function First(sizes: seq<i32>): nat
    requires sizes != []
  {
    if sizes[0] == CHECK_MARK then 0 else ToUsize(sizes[0])
  }

  lemma PlanSum(sizes: seq<i32>)
    requires sizes != []
    ensures Sum(Planned(sizes)) == First(sizes) + Sum(Planned(sizes[1..]))
  {
    var rest := Planned(sizes[1..]);
    if sizes[0] == CHECK_MARK {
      assert [] + rest == rest;
    } else {
      assert ([ToUsize(sizes[0])] + rest)[1..] == rest;
    }
  }

  /** The records follow the sizes in order, and only a last one may come after them, without a size. */
  ghost predicate FollowsPlan(rs: seq<Record>, planned: seq<nat>) {
    && |planned| <= |rs| <= |planned| + 1
    && (forall i :: 0 <= i < |rs| ==> Shaped(rs[i]))
    && (forall i :: 0 <= i < |rs| ==> rs[i].planned == if i < |planned| then Some(planned[i]) else None)
  }

  /** Where the plan is broken off: at the first mark that finds the payload used up. */
  ghost predicate StopsAt(n: nat, sizes: seq<i32>, stop: nat)
    requires stop <= |sizes|
  {
    && (stop < |sizes| ==> sizes[stop] == CHECK_MARK && Sum(Planned(sizes[..stop])) >= n)
    && (forall j :: 0 <= j < stop && sizes[j] == CHECK_MARK ==> Sum(Planned(sizes[..j])) < n)
  }

  /**
   The records follow the plan, size by size, up to the first mark that finds the payload used up. Every one has
   exactly its planned size, except that one with too little room left for a Waste header stays short by at most
   seven bytes and a pure padding record adds its header. A last, unplanned record takes what payload is left,
   exactly if the plan is too short for it. The payload is cut without gap.
   */
  lemma {:induction false} RecordsFollowPlan(data: seq<byte>, sizes: seq<i32>) returns (stop: nat)
    ensures stop <= |sizes| && StopsAt(|data|, sizes, stop)
    ensures var rs, planned := Records(data, sizes), Planned(sizes[..stop]);
            && FollowsPlan(rs, planned)
            && PayloadSum(rs) == |data|
            && (|rs| > |planned| <==> Sum(Planned(sizes)) < |data|)
    decreases |sizes|
  {
    hide Cut, ToUsize, Shaped, StopsAt, FollowsPlan, Sum;
    stop := 0;
    if sizes == [] || (sizes[0] == CHECK_MARK && data == []) {
      PlanEnds(data, sizes);
    } else {
      var n := Min(First(sizes), |data|);
      var later := RecordsFollowPlan(data[n..], sizes[1..]);
      stop := later + 1;
      PlanLonger(|data|, sizes, later);
      PlanSum(sizes);
      assert sizes[..stop][1..] == sizes[1..][..later];
      if sizes[0] == CHECK_MARK {
        assert data[0..] == data;
        assert Planned(sizes[..stop]) == Planned(sizes[1..][..later]);
      } else {
        var size := ToUsize(sizes[0]);
        CutShaped(data, size);
        OneMore(Cut(data, size), Records(data[n..], sizes[1..]), Planned(sizes[1..][..later]));
      }
    }
  }

  lemma PlanEnds(data: seq<byte>, sizes: seq<i32>)
    requires sizes == [] || (sizes[0] == CHECK_MARK && data == [])
    ensures StopsAt(|data|, sizes, 0) && Planned(sizes[..0]) == []
    ensures var rs := Records(data, sizes);
            FollowsPlan(rs, []) && PayloadSum(rs) == |data| && (rs != [] <==> Sum(Planned(sizes)) < |data|)
  {
    var rs := Records(data, sizes);
    if rs != [] {
      assert rs[1..] == [];
    }
  }

  /** Where a plan stops, told by where the rest of it stops. */
  lemma PlanLonger(n: nat, sizes: seq<i32>, later: nat)
    requires sizes != [] && (sizes[0] == CHECK_MARK ==> n > 0)
    requires later < |sizes| && StopsAt(n - Min(First(sizes), n), sizes[1..], later)
    ensures StopsAt(n, sizes, later + 1)
  {
    hide ToUsize;
    forall j | 0 < j <= |sizes|
      ensures Sum(Planned(sizes[..j])) == First(sizes) + Sum(Planned(sizes[1..][..j - 1]))
    {
      PlanSum(sizes[..j]);
      assert sizes[..j][1..] == sizes[1..][..j - 1];
    }
    assert Planned(sizes[..0]) == [];
  }

  lemma OneMore(r: Record, rs: seq<Record>, planned: seq<nat>)
    requires FollowsPlan(rs, planned) && Shaped(r) && r.planned.Some?
    ensures FollowsPlan([r] + rs, [r.planned.value] + planned) && PayloadSum([r] + rs) == r.payload + PayloadSum(rs)
  {
    hide Shaped;
    assert ([r] + rs)[1..] == rs;
  }

  function PayloadSum(rs: seq<Record>): nat {
    if rs == [] then 0 else rs[0].payload + PayloadSum(rs[1..])
  }
}
