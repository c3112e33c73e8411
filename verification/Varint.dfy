/** The variable-length integers of section 16 of RFC 9000, as Hysteria2 encodes and decodes them. */
module Varint {
  import opened Bytes

  /** The low `k` bytes of `v`, most significant first. */
  function BigEndian(v: nat, k: nat): (s: seq<byte>)
    ensures |s| == k
    decreases k
  {
    if k == 0 then [] else BigEndian(v / 0x100, k - 1) + [v % 0x100]
  }

  /** The value of the bytes `s` shifted in after `acc`: `acc << 8 | byte`, byte by byte. */
  function Shift(acc: nat, s: seq<byte>): nat
    decreases |s|
  {
    if s == [] then acc else 0x100 * Shift(acc, s[..|s| - 1]) + s[|s| - 1]
  }

  /** `v` fits `k` bytes with the two top bits clear. */
  predicate Fits(v: nat, k: nat)
    requires k > 0
  {
    if k == 1 then v < 64 else Fits(v / 0x100, k - 1)
  }

  const LIMIT: nat := 0x4000_0000_0000_0000

  lemma FitsRanges(v: nat)
    ensures Fits(v, 2) <==> v < 0x4000
    ensures Fits(v, 4) <==> v < 0x4000_0000
    ensures Fits(v, 8) <==> v < LIMIT
  {
    var w := v / 0x1_0000;
    assert v / 0x100 / 0x100 == w;
    Fits2(v);
    Fits2(w);
    FitsTwoMore(v, 2);
    FitsTwoMore(v, 6);
    FitsTwoMore(w, 4);
    var x := w / 0x1_0000;
    FitsTwoMore(x, 2);
    Fits2(x / 0x1_0000);
  }

  lemma Fits2(v: nat)
    ensures Fits(v, 2) <==> v < 0x4000
  {
    assert Fits(v / 0x100, 1) <==> v / 0x100 < 64;
  }

  lemma FitsTwoMore(v: nat, k: nat)
    requires k > 0
    ensures Fits(v, k + 2) <==> Fits(v / 0x1_0000, k)
  {
    assert v / 0x100 / 0x100 == v / 0x1_0000;
    assert Fits(v / 0x100, k + 1) <==> Fits(v / 0x100 / 0x100, k);
  }

  /** How many bytes the two top bits of the first byte announce. */
  function WidthOf(first: byte): (n: nat)
    ensures n == 1 || n == 2 || n == 4 || n == 8
  {
    match first / 64
    case 0 => 1
    case 1 => 2
    case 2 => 4
    case _ => 8
  }

  /** A two-bit tag written over the top of the first byte. */
  function Tagged(s: seq<byte>, tag: nat): (r: seq<byte>)
    requires s != [] && tag < 4
    ensures |r| == |s|
  {
    [s[0] % 64 + 64 * tag] + s[1..]
  }

  /** `encode_varint` */
  function Encode(v: nat): (r: Option<seq<byte>>)
    ensures r.Some? <==> v < LIMIT
    ensures r.Some? ==> r.value != []
  {
    if v <= 63 then Some([v])
    else if v < 0x4000 then Some(Tagged(BigEndian(v, 2), 1))
    else if v < 0x4000_0000 then Some(Tagged(BigEndian(v, 4), 2))
    else if v < LIMIT then Some(Tagged(BigEndian(v, 8), 3))
    else None
  }

  datatype Decoded = Truncated | Value(v: nat, used: nat)

  /** What `read_varint` and the inline decoder of the datagram loop make of the bytes at hand. */
  function Decode(s: seq<byte>): (r: Decoded)
    ensures r.Value? ==> 1 <= r.used <= |s| && r.used == WidthOf(s[0])
  {
    if s == [] then Truncated else
    var n := WidthOf(s[0]);
    if |s| < n then Truncated else Value(Shift(s[0] % 64, s[1..n]), n)
  }

  /** Shifting the bytes of a value back in gives the value. */
  lemma {:induction false} ShiftBigEndian(v: nat, k: nat)
    requires k > 0 && Fits(v, k)
    ensures var s := BigEndian(v, k); s[0] < 64 && Shift(s[0], s[1..]) == v
    decreases k
  {
    var s := BigEndian(v, k);
    if k == 1 {
      assert BigEndian(v / 0x100, 0) == [];
      assert s == [v];
    } else {
      var t := BigEndian(v / 0x100, k - 1);
      ShiftBigEndian(v / 0x100, k - 1);
      assert s[1..] == t[1..] + [v % 0x100];
      assert s[1..][..|s| - 2] == t[1..];
    }
  }

  /** Shifting in any bytes gives a value that fits them. */
  lemma {:induction false} ShiftFits(acc: nat, s: seq<byte>)
    requires acc < 64
    ensures Fits(Shift(acc, s), |s| + 1)
    decreases |s|
  {
    if s != [] {
      ShiftFits(acc, s[..|s| - 1]);
      assert Shift(acc, s) / 0x100 == Shift(acc, s[..|s| - 1]);
    }
  }

  lemma TaggedRoundTrip(v: nat, k: nat, tag: nat, suffix: seq<byte>)
    requires k > 0 && tag < 4 && WidthOf(64 * tag) == k && Fits(v, k)
    ensures Decode(Tagged(BigEndian(v, k), tag) + suffix) == Value(v, k)
  {
    ShiftBigEndian(v, k);
    var s := BigEndian(v, k);
    var enc := Tagged(s, tag) + suffix;
    assert enc[0] / 64 == tag && enc[0] % 64 == s[0];
    assert enc[1..k] == s[1..];
  }

  /** Every encodable value decodes to itself, consuming exactly its encoding, whatever follows. */
  lemma RoundTrip(v: nat, suffix: seq<byte>)
    requires v < LIMIT
    ensures Decode(Encode(v).value + suffix) == Value(v, |Encode(v).value|)
  {
    FitsRanges(v);
    if v <= 63 {
      var enc := [v] + suffix;
      assert enc[1..1] == [];
    } else if v < 0x4000 {
      TaggedRoundTrip(v, 2, 1, suffix);
    } else if v < 0x4000_0000 {
      TaggedRoundTrip(v, 4, 2, suffix);
    } else {
      TaggedRoundTrip(v, 8, 3, suffix);
    }
  }

  /**
   The layout of section 16 of RFC 9000: the two top bits of the first byte say that one, two, four or eight bytes make
   up the number, which is their value in network order without those bits.
   */
  lemma DecodeLayout(s: seq<byte>)
    requires |s| >= 8
    ensures s[0] < 0x40 ==> Decode(s) == Decoded.Value(Bytes.Value(s[..1]), 1)
    ensures 0x40 <= s[0] < 0x80 ==>
              Bytes.Value(s[..2]) >= 0x4000 && Decode(s) == Decoded.Value(Bytes.Value(s[..2]) - 0x4000, 2)
    ensures 0x80 <= s[0] < 0xC0 ==>
              Bytes.Value(s[..4]) >= 0x8000_0000 && Decode(s) == Decoded.Value(Bytes.Value(s[..4]) - 0x8000_0000, 4)
    ensures 0xC0 <= s[0] ==>
              && Bytes.Value(s[..8]) >= 0xC000_0000_0000_0000
              && Decode(s) == Decoded.Value(Bytes.Value(s[..8]) - 0xC000_0000_0000_0000, 8)
  {
    hide Shift;
    var n, low := WidthOf(s[0]), s[0] % 64;
    var high := s[0] - low;
    ValueByShift(s[..n]);
    assert s[..n][1..] == s[1..n];
    ShiftHigher(low, high, s[1..n]);
    Places(n - 1);
  }

  /** The places of `k` bytes. */
  function Place(k: nat): nat {
    if k == 0 then 1 else 0x100 * Place(k - 1)
  }

  lemma Places(k: nat)
    ensures k == 1 ==> Place(k) == 0x100
    ensures k == 3 ==> Place(k) == 0x100_0000
    ensures k == 7 ==> Place(k) == 0x100_0000_0000_0000
  {
    assert Place(0) == 1 && Place(1) == 0x100 && Place(2) == 0x1_0000 && Place(3) == 0x100_0000;
    assert Place(4) == 0x1_0000_0000 && Place(5) == 0x100_0000_0000 && Place(6) == 0x1_0000_0000_0000;
  }

  lemma {:induction false} ValueByShift(s: seq<byte>)
    requires s != []
    ensures Bytes.Value(s) == Shift(s[0], s[1..])
    decreases |s|
  {
    var n := |s| - 1;
    if n == 0 {
      assert s[..0] == [] && s[1..] == [];
    } else {
      ValueByShift(s[..n]);
      assert s[..n][1..] == s[1..][..n - 1];
    }
  }

  lemma {:induction false} ShiftHigher(acc: nat, more: nat, s: seq<byte>)
    ensures Shift(acc + more, s) == Shift(acc, s) + more * Place(|s|)
    decreases |s|
  {
    if s != [] {
      ShiftHigher(acc, more, s[..|s| - 1]);
      var p := Place(|s| - 1);
      assert 0x100 * (more * p) == more * (0x100 * p);
    }
  }

  /** More bytes never change a decoded value. */
  lemma Stable(s: seq<byte>, more: seq<byte>)
    requires Decode(s).Value?
    ensures Decode(s + more) == Decode(s)
  {
    var n := WidthOf(s[0]);
    assert (s + more)[1..n] == s[1..n];
  }

  /** Whatever bytes decode to a value, it is below the limit and its encoding is no longer than they are. */
  lemma Shortest(s: seq<byte>)
    requires Decode(s).Value?
    ensures Decode(s).v < LIMIT
    ensures |Encode(Decode(s).v).value| <= Decode(s).used
  {
    var Value(v, n) := Decode(s);
    ShiftFits(s[0] % 64, s[1..n]);
    FitsRanges(v);
  }

  /** No encoding is a proper prefix of another, and no two values share one. */
  lemma PrefixFree(v: nat, w: nat)
    requires v < LIMIT && w < LIMIT
    requires Encode(v).value <= Encode(w).value
    ensures v == w
  {
    var a, b := Encode(v).value, Encode(w).value;
    RoundTrip(v, b[|a|..]);
    RoundTrip(w, []);
    assert b == a + b[|a|..] && b + [] == b;
  }

  /** The accumulating loop of `read_varint` over the bytes after the first. */
  method ShiftLoop(first: byte, remaining: seq<byte>) returns (value: nat)
    ensures value == Shift(first % 64, remaining)
  {
    value := first % 64;
    for i := 0 to |remaining|
      invariant value == Shift(first % 64, remaining[..i])
    {
      assert remaining[..i + 1][..i] == remaining[..i];
      value := 0x100 * value + remaining[i];
    }
    assert remaining[..|remaining|] == remaining;
  }
}
