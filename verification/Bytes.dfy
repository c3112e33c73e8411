/** Bytes, fixed-width integers in network byte order, and sequences of chunks. */
module Bytes {

  type byte = b: int | 0 <= b < 0x100
  type u8 = n: int | 0 <= n < 0x100
  type u16 = n: int | 0 <= n < 0x1_0000
  type u32 = n: int | 0 <= n < 0x1_0000_0000

  datatype Option<+T> = None | Some(value: T)

  function U16ToBe(n: u16): (s: seq<byte>)
    ensures |s| == 2 && U16FromBe(s[0], s[1]) == n
  {
    [n / 0x100, n % 0x100]
  }

  function U16FromBe(hi: byte, lo: byte): u16 {
    0x100 * hi + lo
  }

  function U32ToBe(n: u32): (s: seq<byte>)
    ensures |s| == 4 && U32FromBe(s) == n
  {
    U16ToBe(n / 0x1_0000) + U16ToBe(n % 0x1_0000)
  }

  function U32FromBe(s: seq<byte>): u32
    requires |s| == 4
  {
    0x1_0000 * U16FromBe(s[0], s[1]) + U16FromBe(s[2], s[3])
  }

  lemma U16BytesUnique(hi: byte, lo: byte)
    ensures U16ToBe(U16FromBe(hi, lo)) == [hi, lo]
  {
    var n := U16FromBe(hi, lo);
    assert n / 0x100 == hi && n % 0x100 == lo;
  }

  /** Four bytes are told by their value. */
  lemma U32BytesUnique(s: seq<byte>, t: seq<byte>)
    requires |s| == |t| == 4 && U32FromBe(s) == U32FromBe(t)
    ensures s == t
  {
    hide U16FromBe;
    HighFirst(U16FromBe(s[0], s[1]), U16FromBe(s[2], s[3]), U16FromBe(t[0], t[1]), U16FromBe(t[2], t[3]));
    TwoBytes(s[0], s[1], t[0], t[1]);
    TwoBytes(s[2], s[3], t[2], t[3]);
    assert s == [s[0], s[1], s[2], s[3]] && t == [t[0], t[1], t[2], t[3]];
  }

  lemma HighFirst(a: u16, b: u16, c: u16, d: u16)
    ensures 0x1_0000 * a + b == 0x1_0000 * c + d ==> a == c && b == d
  {
  }

  lemma TwoBytes(a: byte, b: byte, c: byte, d: byte)
    ensures U16FromBe(a, b) == U16FromBe(c, d) ==> a == c && b == d
  {
  }

  /** The value of bytes in network order, the most significant first. */
  function Value(s: seq<byte>): nat {
    if s == [] then 0 else 0x100 * Value(s[..|s| - 1]) + s[|s| - 1]
  }

  lemma ValueOf16(n: u16)
    ensures Value(U16ToBe(n)) == n
  {
    ValueOfTwo(U16ToBe(n));
  }

  lemma ValueOf32(n: u32)
    ensures Value(U32ToBe(n)) == n
  {
    hide U16ToBe;
    var s := U32ToBe(n);
    ValueOfTwo(s[..2]);
    assert s[..3][..2] == s[..2];
    assert Value(s[..3]) == 0x100 * Value(s[..2]) + s[2];
    assert Value(s) == 0x100 * Value(s[..3]) + s[3];
  }

  lemma ValueOfTwo(s: seq<byte>)
    requires |s| == 2
    ensures Value(s) == U16FromBe(s[0], s[1])
  {
    assert s[..1][..0] == [];
    assert Value(s[..1]) == 0x100 * Value([]) + s[0];
  }

  function Zeros(n: nat): (s: seq<byte>)
    ensures |s| == n
  {
    seq(n, _ => 0)
  }

  function Min(a: nat, b: nat): nat {
    if a < b then a else b
  }

  lemma Associate<T>(a: seq<T>, b: seq<T>, c: seq<T>)
    ensures a + b + c == a + (b + c)
  {
  }

  lemma TakeMore<T>(s: seq<T>, start: nat, n: nat)
    requires start + n <= |s|
    ensures s[..start] + s[start..][..n] == s[..start + n] && s[start..][..n] == s[start..start + n]
  {
  }

  lemma NestRight<T>(a: seq<T>, b: seq<T>, c: seq<T>, d: seq<T>)
    ensures a + b + c + d == a + (b + (c + d))
  {
  }

  lemma Regroup<T>(a: seq<T>, b: seq<T>, c: seq<T>, d: seq<T>)
    ensures a + (b + c) + d == a + b + (c + d)
  {
  }

  lemma Cancel<T>(a: seq<T>, b: seq<T>, c: seq<T>)
    ensures a + b == a + c <==> b == c
  {
    assert (a + b)[|a|..] == b && (a + c)[|a|..] == c;
  }

  /** The bytes of a list of chunks, in order. */
  function Flatten<T>(chunks: seq<seq<T>>): seq<T> {
    if chunks == [] then [] else chunks[0] + Flatten(chunks[1..])
  }

  lemma FlattenNothing<T>()
    ensures Flatten<T>([]) == []
  {
  }

  lemma {:induction false} FlattenAppend<T>(a: seq<seq<T>>, b: seq<seq<T>>)
    ensures Flatten(a + b) == Flatten(a) + Flatten(b)
  {
    if a == [] {
      assert a + b == b;
    } else {
      assert (a + b)[1..] == a[1..] + b;
      FlattenAppend(a[1..], b);
    }
  }

  lemma FlattenOne<T>(a: seq<T>)
    ensures Flatten([a]) == a
  {
    assert Flatten<T>([a][1..]) == [];
  }

  lemma FlattenSnoc<T>(a: seq<seq<T>>, last: seq<T>)
    ensures Flatten(a + [last]) == Flatten(a) + last
  {
    FlattenAppend(a, [last]);
    FlattenOne(last);
  }
}
