/** Items cut out of a byte stream by an incremental parser, independently of how the bytes arrive. */
module Framing {
  import opened Bytes

  /** A parser's verdict on the bytes at hand. */
  datatype Step<+T> = More | Bad | Item(value: T, used: nat)

  type Parser<T> = seq<byte> -> Step<T>

  /**
   What the incremental parsers of the repository have in common: an item takes at least one byte and no more
   than are there, and a verdict reached on a prefix is not changed by the bytes that follow.
   */
  ghost predicate Incremental<T(!new)>(parse: Parser<T>) {
    && (forall s :: parse(s).Item? ==> 0 < parse(s).used <= |s|)
    && (forall s, more :: !parse(s).More? ==> parse(s + more) == parse(s))
  }

  /** The items of a whole byte string, what is left after them, and whether that is bad. */
  datatype Cut<+T> = Cut(items: seq<T>, rest: seq<byte>, bad: bool)

  ghost function Items<T(!new)>(parse: Parser<T>, s: seq<byte>): Cut<T>
    requires Incremental(parse)
    decreases |s|
  {
    match parse(s)
    case More => Cut([], s, false)
    case Bad => Cut([], s, true)
    case Item(x, used) =>
      var c := Items(parse, s[used..]);
      c.(items := [x] + c.items)
  }

  ghost function Prepend<T>(xs: seq<T>, c: Cut<T>): Cut<T> {
    c.(items := xs + c.items)
  }

  lemma PrependOne<T>(x: T, xs: seq<T>, c: Cut<T>)
    ensures Prepend([x], Prepend(xs, c)) == Prepend([x] + xs, c)
  {
    Associate([x], xs, c.items);
  }

  /** An item at the front of a prefix is the first item of the whole. */
  lemma ItemsFirst<T(!new)>(parse: Parser<T>, s: seq<byte>, more: seq<byte>)
    requires Incremental(parse) && parse(s).Item?
    ensures Items(parse, s + more) == Prepend([parse(s).value], Items(parse, s[parse(s).used..] + more))
  {
    var used := parse(s).used;
    assert (s + more)[used..] == s[used..] + more;
  }

  function Encoded<T>(encode: T -> seq<byte>, xs: seq<T>): seq<byte> {
    if xs == [] then [] else encode(xs[0]) + Encoded(encode, xs[1..])
  }

  lemma {:induction false} EncodedSnoc<T>(encode: T -> seq<byte>, xs: seq<T>, x: T)
    ensures Encoded(encode, xs + [x]) == Encoded(encode, xs) + encode(x)
  {
    if xs == [] {
      assert Encoded(encode, [x][1..]) == [];
    } else {
      assert (xs + [x])[1..] == xs[1..] + [x];
      EncodedSnoc(encode, xs[1..], x);
    }
  }

  /** What a caller may ask of a message writer; a write that was not ready is asked for again. */
  datatype Attempt<+T> = Send(x: T) | Flush

  /** The items of the attempts that were taken, in order. */
  function Taken<T>(attempts: seq<Attempt<T>>, took: seq<bool>): seq<T>
    requires |took| == |attempts|
  {
    if attempts == [] then [] else
    var n := |attempts| - 1;
    Taken(attempts[..n], took[..n]) + if took[n] && attempts[n].Send? then [attempts[n].x] else []
  }

  lemma TakenSnoc<T>(attempts: seq<Attempt<T>>, took: seq<bool>, a: Attempt<T>, t: bool)
    requires |took| == |attempts|
    ensures Taken(attempts + [a], took + [t]) == Taken(attempts, took) + if t && a.Send? then [a.x] else []
  {
    assert (attempts + [a])[..|attempts|] == attempts && (took + [t])[..|took|] == took;
  }

  /** `x` comes back from its encoding, with nothing of what follows consumed. */
  ghost predicate Recovers<T(!new)>(parse: Parser<T>, encode: T -> seq<byte>, x: T) {
    forall more :: parse(encode(x) + more) == Item(x, |encode(x)|)
  }

  /** Encoded items are cut into themselves, in order, whatever follows. */
  lemma {:induction false} ItemsOfEncoded<T(!new)>(parse: Parser<T>, encode: T -> seq<byte>, xs: seq<T>,
                                                   tail: seq<byte>)
    requires Incremental(parse) && forall i :: 0 <= i < |xs| ==> Recovers(parse, encode, xs[i])
    ensures Items(parse, Encoded(encode, xs) + tail) == Prepend(xs, Items(parse, tail))
  {
    if xs == [] {
      assert Encoded(encode, xs) + tail == tail;
    } else {
      var first, rest := encode(xs[0]), Encoded(encode, xs[1..]) + tail;
      assert Encoded(encode, xs) + tail == first + rest;
      assert Recovers(parse, encode, xs[0]);
      assert (first + rest)[|first|..] == rest;
      ItemsOfEncoded(parse, encode, xs[1..], tail);
      PrependOne(xs[0], xs[1..], Items(parse, tail));
      assert [xs[0]] + xs[1..] == xs;
    }
  }

  // ----- pieces of a stream -----

  /** One item and then the first of those after it are the first of them all. */
  lemma DeliveredMore<T>(xs: seq<T>, d: seq<T>)
    requires xs != [] && d <= xs[1..]
    ensures [xs[0]] + d <= xs && xs[1..][|d|..] == xs[1 + |d|..]
    ensures d == xs[1..] ==> [xs[0]] + d == xs
  {
  }

  /** What is at hand and what is to come are a first item and the later ones: without it, the later ones. */
  lemma Suffixes(all: seq<byte>, rest: seq<byte>, first: seq<byte>, later: seq<byte>)
    requires all + rest == first + later
    ensures |first| <= |all| ==> all[|first|..] + rest == later
  {
    if |first| <= |all| {
      assert (all + rest)[|first|..] == all[|first|..] + rest;
      assert (first + later)[|first|..] == later;
    }
  }
}
