/** An AnyTLS connection before its session: who it is, and that no byte is lost in handing it over. */
module Authentication {
  import opened Bytes
  import opened Transport
  import opened Frames
  import opened StreamReader
  import ReceiveLoop
  import CopyBidirectional

  const HASH_SIZE: nat := 32
  const PREFIX_SIZE: nat := 8
  const READER_SIZE: nat := 32768
  const RELAY_SIZE: nat := 16384

  datatype User = User(name: string, password: string)

  /** The name of the last user with this password hash. */
  ghost function Known(users: seq<User>, digest: string -> seq<byte>, hash: seq<byte>): Option<string> {
    if users == [] then None
    else if digest(users[|users| - 1].password) == hash then Some(users[|users| - 1].name)
    else Known(users[..|users| - 1], digest, hash)
  }

  datatype Decision =
    | Session(user: string, initial: Option<seq<byte>>)
    | Fallback(forwarded: seq<byte>)
    | Denied
    | Unusable(cause: Outcome<()>)

  class Handler {
    const users: map<seq<byte>, string>
    const hashPrefixes: set<seq<byte>>

    /** The tables hold exactly the given users. */
    ghost predicate Holds(list: seq<User>, digest: string -> seq<byte>) {
      && (forall h :: h in users <==> Known(list, digest, h).Some?)
      && (forall h :: h in users ==>
          |h| == HASH_SIZE && h[..PREFIX_SIZE] in hashPrefixes && Known(list, digest, h) == Some(users[h]))
      && (forall p :: p in hashPrefixes ==> exists h :: h in users && h[..PREFIX_SIZE] == p)
    }

    constructor (list: seq<User>, digest: string -> seq<byte>)
      requires forall p :: |digest(p)| == HASH_SIZE
      ensures Holds(list, digest)
    {
      var table, prefixes := map[], {};
      for i := 0 to |list|
        invariant forall h :: h in table <==> Known(list[..i], digest, h).Some?
        invariant forall h :: h in table ==>
            |h| == HASH_SIZE && h[..PREFIX_SIZE] in prefixes && Known(list[..i], digest, h) == Some(table[h])
        invariant forall p :: p in prefixes ==> exists h :: h in table && h[..PREFIX_SIZE] == p
      {
        var hash := digest(list[i].password);
        assert list[..i + 1][..i] == list[..i];
        ghost var before := table;
        prefixes := prefixes + {hash[..PREFIX_SIZE]};
        table := table[hash := list[i].name];
        forall p | p in prefixes
          ensures exists h :: h in table && h[..PREFIX_SIZE] == p
        {
          if p == hash[..PREFIX_SIZE] {
            assert hash in table;
          } else {
            var h :| h in before && h[..PREFIX_SIZE] == p;
            assert h in table;
          }
        }
      }
      assert list[..|list|] == list;
      users, hashPrefixes := table, prefixes;
    }
  
    /** No user's hash begins as the client's bytes do, over the first eight or the first thirty-two of them. */
    ghost predicate Unknown(bytes: seq<byte>) {
      exists n :: n in {8, 32} && n <= |bytes| && forall h :: h in users ==>
          h[..Min(n, |h|)] != bytes[..n]
    }

    /**
     The decision in `handle_connection`, on a fresh connection, however its bytes arrive. A known user whose hash,
     padding length and padding are all there gets a session, with exactly the bytes after those, and is turned away
     exactly if the padding is longer than the reader's buffer; an unknown one gets the fallback, with every byte
     read so far, or is denied. Only a stream that breaks off leaves it undecided.
     */
    method Decide(stream: Source, fallback: bool, ghost list: seq<User>, ghost digest: string -> seq<byte>)
      returns (d: Decision)
      requires Holds(list, digest) && stream.delivered == []
      modifies stream
      ensures d.Session? <==>
                && KnownUser(list, digest, stream.delivered) && PrologueLength(stream.delivered).Some?
                && PrologueLength(stream.delivered).value <= 34 + 32768
      ensures d.Session? ==>
                && Known(list, digest, stream.delivered[..HASH_SIZE]) == Some(d.user)
                && ReceiveLoop.Start(d.initial) == stream.delivered[PrologueLength(stream.delivered).value..]
      ensures d.Unusable? && d.cause.TooLong? <==>
                KnownUser(list, digest, stream.delivered) && PaddingTooLong(stream.delivered)
      ensures d.Fallback? <==> fallback && Unknown(stream.delivered)
      ensures d.Fallback? ==> d.forwarded == stream.delivered
      ensures d.Denied? <==> !fallback && Unknown(stream.delivered)
      ensures d.Unusable? ==> Excused(d.cause, stream)
      ensures stream.failures >= old(stream.failures) && stream.pendings >= old(stream.pendings)
    {
      hide Known, PrologueLength, PaddingTooLong, Holds, Unknown;
      var reader := new StreamReader(READER_SIZE);
      var hash := Identify(reader, stream, list, digest);
      if !hash.Got? {
        return Unusable(Cause(hash));
      }
      if hash.value.None? {
        if |stream.delivered| >= HASH_SIZE {
          UnknownIsNobody(list, digest, stream.delivered);
        }
        return if fallback then Fallback(reader.Unparsed()) else Denied;
      }
      reader.Consume(HASH_SIZE);
      assert stream.delivered == hash.value.value + reader.Unparsed();
      var prologue := ReadPrologue(reader, stream, hash.value.value);
      assert stream.delivered[..HASH_SIZE] == hash.value.value;
      UserIsNotUnknown(list, digest, stream.delivered);
      if !prologue.Got? {
        return Unusable(prologue);
      }
      var rest := reader.Unparsed();
      d := Session(users[hash.value.value], if rest == [] then None else Some(rest));
    }

    /** Peeks at eight bytes, and at thirty-two if a user's hash begins with those. Nothing is consumed. */
    method Identify(reader: StreamReader, stream: Source, ghost list: seq<User>, ghost digest: string -> seq<byte>)
      returns (r: Outcome<Option<seq<byte>>>)
      requires Holds(list, digest) && stream.delivered == []
      requires reader.Valid() && reader.buf.Length == READER_SIZE && reader.Unparsed() == []
      modifies reader, reader.buf, stream
      ensures reader.Valid() && reader.Unparsed() == stream.delivered
      ensures !r.TooLong? && (!r.Got? ==> Excused(Cause(r), stream))
      ensures stream.failures >= old(stream.failures) && stream.pendings >= old(stream.pendings)
      ensures r.Got? && r.value.None? <==> Unknown(stream.delivered)
      ensures !r.Got? ==> |stream.delivered| < HASH_SIZE
      ensures r.Got? && r.value.Some? ==>
                var hash := r.value.value;
                && |hash| == HASH_SIZE && hash <= stream.delivered
                && hash in users && Known(list, digest, hash) == Some(users[hash])
    {
      hide Known, Holds, Unknown;
      var prefix := reader.PeekSlice(stream, PREFIX_SIZE);
      Chain([], [], [], stream.delivered, [], reader.Unparsed());
      if !prefix.Got? {
        TooFewToTell(stream.delivered);
        return Failure(Cause(prefix));
      }
      if prefix.value !in hashPrefixes {
        NoSuchPrefix(list, digest, prefix.value, stream.delivered);
        return Got(None);
      }
      ghost var seen := stream.delivered;
      var auth := reader.PeekSlice(stream, HASH_SIZE);
      Chain([], seen, seen, stream.delivered, [], reader.Unparsed());
      if !auth.Got? {
        PrefixKnown(list, digest, prefix.value, stream.delivered);
        return Failure(Cause(auth));
      }
      if auth.value !in users {
        NoSuchHash(list, digest, auth.value, stream.delivered);
        return Got(None);
      }
      UserKnown(list, digest, auth.value);
      assert stream.delivered[..HASH_SIZE] == auth.value;
      UserIsNotUnknown(list, digest, stream.delivered);
      return Got(Some(auth.value));
    }

    /** The first bytes are the hash of a user. */
    ghost predicate KnownUser(list: seq<User>, digest: string -> seq<byte>, bytes: seq<byte>) {
      |bytes| >= 32 && Known(list, digest, bytes[..32]).Some?
    }

    lemma TooFewToTell(bytes: seq<byte>)
      requires |bytes| < PREFIX_SIZE
      ensures !Unknown(bytes)
    {
    }

    /** A user's hash begins with this prefix, and too little is there for the whole of it. */
    lemma PrefixKnown(list: seq<User>, digest: string -> seq<byte>, prefix: seq<byte>, bytes: seq<byte>)
      requires Holds(list, digest) && prefix in hashPrefixes && |prefix| == PREFIX_SIZE
      requires prefix <= bytes && |bytes| < HASH_SIZE
      ensures !Unknown(bytes)
    {
      hide Known;
      var h :| h in users && h[..PREFIX_SIZE] == prefix;
      assert bytes[..PREFIX_SIZE] == prefix && h[..Min(PREFIX_SIZE, |h|)] == prefix;
    }

    lemma UserIsNotUnknown(list: seq<User>, digest: string -> seq<byte>, bytes: seq<byte>)
      requires Holds(list, digest) && |bytes| >= HASH_SIZE && bytes[..HASH_SIZE] in users
      ensures !Unknown(bytes) && KnownUser(list, digest, bytes)
    {
      hide Known;
      var hash := bytes[..HASH_SIZE];
      forall n | n in {8, 32}
        ensures hash[..Min(n, |hash|)] == bytes[..n]
      {
      }
    }

    lemma KnownIsNotUnknown(list: seq<User>, digest: string -> seq<byte>, bytes: seq<byte>)
      requires Holds(list, digest)
      ensures !(KnownUser(list, digest, bytes) && Unknown(bytes))
    {
      hide Known, Unknown, Holds;
      if Unknown(bytes) && |bytes| >= HASH_SIZE {
        UnknownIsNobody(list, digest, bytes);
      }
    }

    lemma UnknownStays(early: seq<byte>, later: seq<byte>)
      requires Unknown(early) && early <= later
      ensures Unknown(later)
    {
      var n :| n in {8, 32} && n <= |early| && forall h :: h in users ==>
          h[..Min(n, |h|)] != early[..n];
      assert later[..n] == early[..n];
    }

    lemma NoSuchPrefix(list: seq<User>, digest: string -> seq<byte>, prefix: seq<byte>, bytes: seq<byte>)
      requires Holds(list, digest) && |prefix| == PREFIX_SIZE && prefix <= bytes && prefix !in hashPrefixes
      ensures Unknown(bytes)
    {
      assert bytes[..PREFIX_SIZE] == prefix;
    }

    lemma NoSuchHash(list: seq<User>, digest: string -> seq<byte>, hash: seq<byte>, bytes: seq<byte>)
      requires Holds(list, digest) && |hash| == HASH_SIZE && hash <= bytes && hash !in users
      ensures Unknown(bytes)
    {
      assert bytes[..HASH_SIZE] == hash;
      assert forall h :: h in users ==> h[..HASH_SIZE] == h;
    }

    lemma UserKnown(list: seq<User>, digest: string -> seq<byte>, hash: seq<byte>)
      requires Holds(list, digest) && hash in users
      ensures |hash| == HASH_SIZE && Known(list, digest, hash) == Some(users[hash])
    {
    }

    /** The quick test on eight bytes turns no user away: whoever is unknown so is unknown altogether. */
    lemma UnknownIsNobody(list: seq<User>, digest: string -> seq<byte>, bytes: seq<byte>)
      requires Holds(list, digest) && Unknown(bytes) && |bytes| >= HASH_SIZE
      ensures Known(list, digest, bytes[..HASH_SIZE]).None?
    {
      hide Known;
      var hash := bytes[..HASH_SIZE];
      var n :| n in {8, 32} && n <= |bytes| && forall h :: h in users ==>
          h[..Min(n, |h|)] != bytes[..n];
      assert hash[..Min(n, |hash|)] == bytes[..n];
    }
  }

  /** Apart from padding that is too long, only the stream is to blame. */
  twostate predicate Excused(cause: Outcome<()>, stream: Source)
    reads stream
  {
    && !cause.Got? && !cause.CacheFull?
    && (cause.Eof? ==> stream.ended)
    && (cause.Broken? ==> stream.failures > old(stream.failures))
    && (cause.Blocked? ==> stream.script == [])
  }

  function Cause<T>(o: Outcome<T>): (r: Outcome<()>)
    requires !o.Got?
    ensures !r.Got? && (r.TooLong? <==> o.TooLong?) && (r.Eof? <==> o.Eof?)
    ensures (r.CacheFull? <==> o.CacheFull?) && (r.Broken? <==> o.Broken?) && (r.Blocked? <==> o.Blocked?)
  {
    match o
    case TooLong => TooLong
    case CacheFull => CacheFull
    case Eof => Eof
    case Broken => Broken
    case Blocked => Blocked
  }

  /** All delivered is `before`, then what was taken, then what is left. */
  lemma Chain(before: seq<byte>, had: seq<byte>, d0: seq<byte>, d: seq<byte>, taken: seq<byte>, left: seq<byte>)
    requires d0 == before + had && d0 <= d && taken + left == had + d[|d0|..]
    ensures d == before + (taken + left)
  {
    assert d == d0 + d[|d0|..];
    Associate(before, had, d[|d0|..]);
  }

  /** The padding length is there, and is more than the reader can hold. */
  predicate PaddingTooLong(bytes: seq<byte>) {
    |bytes| >= 34 && U16FromBe(bytes[32], bytes[33]) > 32768
  }

  /** After the hash: the padding length and the padding. */
  method ReadPrologue(reader: StreamReader, stream: Source, ghost hash: seq<byte>) returns (r: Outcome<()>)
    requires reader.Valid() && reader.buf.Length == READER_SIZE
    requires |hash| == HASH_SIZE && stream.delivered == hash + reader.Unparsed()
    modifies reader, reader.buf, stream
    ensures reader.Valid() && hash <= stream.delivered
    ensures r.Got? <==>
              PrologueLength(stream.delivered).Some? && PrologueLength(stream.delivered).value <= 34 + 32768
    ensures r.Got? ==> reader.Unparsed() == stream.delivered[PrologueLength(stream.delivered).value..]
    ensures r.TooLong? <==> PaddingTooLong(stream.delivered)
    ensures !r.Got? ==> Excused(r, stream)
    ensures stream.failures >= old(stream.failures) && stream.pendings >= old(stream.pendings)
  {
    hide U16ToBe, U16FromBe, PrologueLength;
    ghost var d1, had := stream.delivered, reader.Unparsed();
    var length := reader.ReadU16Be(stream);
    ghost var head := if length.Got? then U16ToBe(length.value) else [];
    Chain(hash, had, d1, stream.delivered, head, reader.Unparsed());
    if !length.Got? {
      ShortPrologue(stream.delivered);
      return Cause(length);
    }
    ghost var d2, left := stream.delivered, reader.Unparsed();
    var padding: Outcome<seq<byte>> := Got([]);
    if length.value > 0 {
      padding := reader.ReadSlice(stream, length.value);
    } else {
      assert stream.delivered[|d2|..] == [];
    }
    ghost var taken := if padding.Got? then padding.value else [];
    Associate(hash, head, left);
    Chain(hash + head, left, d2, stream.delivered, taken, reader.Unparsed());
    PrologueIs(hash, length.value, taken, reader.Unparsed(), stream.delivered);
    if !padding.Got? {
      return Cause(padding);
    }
    r := Got(());
  }

  lemma ShortPrologue(bytes: seq<byte>)
    requires |bytes| < 34
    ensures PrologueLength(bytes).None?
  {
  }

  lemma PrologueIs(hash: seq<byte>, length: u16, padding: seq<byte>, left: seq<byte>, all: seq<byte>)
    requires |hash| == HASH_SIZE && all == hash + U16ToBe(length) + (padding + left)
    ensures |all| >= 34 && all[..HASH_SIZE] == hash && U16FromBe(all[32], all[33]) == length
    ensures |padding| == length ==> PrologueLength(all) == Some(34 + length) && all[34 + length..] == left
    ensures PrologueLength(all) == if |padding + left| < length then None else Some(34 + length)
  {
    hide U16ToBe, U16FromBe;
    var two := U16ToBe(length);
    assert all[32] == two[0] && all[33] == two[1];
    if |padding| == length {
      assert all == hash + two + padding + left;
    }
  }

  // ----- what follows the decision -----

  datatype Served =
    | Ran(user: string, dispatched: seq<Frame>, end: ReceiveLoop.LoopEnd)
    | Forwarded(finished: bool)
    | Unreachable
    | Interrupted
    | Refused

  /**
   `handle_connection` as a whole, on a fresh connection. A session's frames are those of the client's bytes from
   exactly byte 34 + padding length on, and there is one exactly for a known user with a complete prologue and padding
   that is not too long; an unknown one is sent to the fallback, if there is one. That destination receives the
   client's bytes from byte 0 on, all of them if the relay runs to its end; in every other case it receives nothing
   but such a prefix.
   */
  method HandleConnection(handler: Handler, client: Source, answers: Sink, dest: Source, destSink: Sink,
                          fallback: bool, dialed: bool, accepts: seq<Frame> -> bool, spare: nat -> nat,
                          turns: nat, polls: seq<CopyBidirectional.Turn>,
                          ghost list: seq<User>, ghost digest: string -> seq<byte>)
    returns (r: Served)
    requires handler.Holds(list, digest) && forall i :: spare(i) > 0
    requires client != dest && answers != destSink && client.delivered == []
    requires answers.Valid() && !answers.closed
    requires destSink.Valid() && !destSink.closed && destSink.accepted == []
    modifies client, answers, dest, destSink
    ensures destSink.accepted <= client.delivered
    ensures r.Ran? <==>
              && handler.KnownUser(list, digest, client.delivered)
              && PrologueLength(client.delivered).Some?
              && PrologueLength(client.delivered).value <= 34 + 32768
    ensures r.Ran? ==>
              && destSink.accepted == []
              && Known(list, digest, client.delivered[..HASH_SIZE]) == Some(r.user)
              && ReceiveLoop.Explains(client.delivered[PrologueLength(client.delivered).value..], accepts,
                                      r.dispatched, r.end)
    ensures r.Forwarded? || r.Unreachable? || r.Interrupted? <==> fallback && handler.Unknown(client.delivered)
    ensures r.Unreachable? ==> !dialed && destSink.accepted == []
    ensures old(dest.delivered) <= dest.delivered
    ensures answers.accepted <= old(answers.accepted) + dest.delivered[|old(dest.delivered)|..]
    ensures r == Forwarded(true) ==>
              && client.ended && destSink.closed && destSink.accepted == client.delivered
              && destSink.flushed == |destSink.accepted|
              && dest.ended && answers.accepted == old(answers.accepted) + dest.delivered[|old(dest.delivered)|..]
    ensures r.Interrupted? ==> destSink.failures > old(destSink.failures) || destSink.script == []
    ensures r == Forwarded(false) ==>
              CopyBidirectional.HeldUp(client, answers, dest, destSink, CopyBidirectional.Allowed(polls))
    ensures r.Refused? ==>
              || (!fallback && handler.Unknown(client.delivered))
              || (handler.KnownUser(list, digest, client.delivered) && PaddingTooLong(client.delivered))
              || client.ended || client.failures > old(client.failures) || client.script == []
    ensures r.Ran? ==>
              && (r.end.Closed? ==> |client.delivered| >= PrologueLength(client.delivered).value + turns)
              && (r.end.EndOfStream? ==> client.ended) && (r.end.Blocked? ==> client.script == [])
              && (r.end.ReadError? ==> client.failures > old(client.failures))
  {
    hide Known, PrologueLength, ReceiveLoop.Explains, Handler.Unknown;
    var d := handler.Decide(client, fallback, list, digest);
    match d {
      case Session(user, initial) =>
        ghost var early := client.delivered;
        var frames, end;
        ghost var seen;
        frames, end, seen := ReceiveLoop.RecvLoop(initial, client, accepts, spare, turns);
        PrologueStays(early, client.delivered);
        handler.KnownIsNotUnknown(list, digest, client.delivered);
        r := Ran(user, frames, end);
      case Fallback(forwarded) =>
        r := FallbackToDest(client, answers, dest, destSink, forwarded, dialed, polls);
        handler.UnknownStays(forwarded, client.delivered);
        handler.KnownIsNotUnknown(list, digest, client.delivered);
      case Denied => r := Refused;
      case Unusable(_) => r := Refused;
    }
  }

  lemma PrologueStays(early: seq<byte>, later: seq<byte>)
    requires early <= later && PrologueLength(early).Some?
    ensures PrologueLength(later) == PrologueLength(early) && later[..HASH_SIZE] == early[..HASH_SIZE]
    ensures PrologueLength(early).value <= |early|
    ensures var n := PrologueLength(early).value; early[n..] + later[|early|..] == later[n..]
  {
    hide U16FromBe;
  }

  /** `fallback_to_dest`: what was read already, then everything that follows. */
  method FallbackToDest(client: Source, answers: Sink, dest: Source, destSink: Sink,
                        unconsumed: seq<byte>, dialed: bool, polls: seq<CopyBidirectional.Turn>)
    returns (r: Served)
    requires client != dest && answers != destSink && unconsumed == client.delivered
    requires answers.Valid() && !answers.closed
    requires destSink.Valid() && !destSink.closed && destSink.accepted == []
    modifies client, answers, dest, destSink
    ensures old(client.delivered) <= client.delivered
    ensures r.Unreachable? || r.Interrupted? || r.Forwarded?
    ensures destSink.accepted <= client.delivered
    ensures r.Forwarded? ==> destSink.flushed >= |unconsumed|
    ensures r.Unreachable? ==> !dialed && destSink.accepted == []
    ensures old(dest.delivered) <= dest.delivered
    ensures answers.accepted <= old(answers.accepted) + dest.delivered[|old(dest.delivered)|..]
    ensures r == Forwarded(true) ==>
              && client.ended && destSink.closed && destSink.accepted == client.delivered
              && destSink.flushed == |destSink.accepted|
              && dest.ended && answers.accepted == old(answers.accepted) + dest.delivered[|old(dest.delivered)|..]
    ensures r.Interrupted? ==> destSink.failures > old(destSink.failures) || destSink.script == []
    ensures r == Forwarded(false) ==>
              CopyBidirectional.HeldUp(client, answers, dest, destSink, CopyBidirectional.Allowed(polls))
  {
    assert dest.delivered[|dest.delivered|..] == [] && answers.accepted + [] == answers.accepted;
    if !dialed {
      return Unreachable;
    }
    if unconsumed != [] {
      var w := destSink.WriteLoop(unconsumed);
      if !w.Ready? {
        return Interrupted;
      }
      w := destSink.Flush();
      if !w.Ready? {
        return Interrupted;
      }
    }
    var finished := CopyBidirectional.Relay(client, answers, dest, destSink, false, false, RELAY_SIZE, polls);
    assert unconsumed + client.delivered[|unconsumed|..] == client.delivered;
    r := Forwarded(finished);
  }

  /** How long hash, padding length and padding are together, once they are all there. */
  function PrologueLength(bytes: seq<byte>): Option<nat> {
    if |bytes| < 34 then None else
    var n := 34 + U16FromBe(bytes[32], bytes[33]);
    if |bytes| < n then None else Some(n)
  }
}
