/** The message relay fed by the length-prefixed reader: what one peer wrote is what the other side is handed. */
module VlessRelay {
  import opened Bytes
  import opened Transport
  import opened Framing
  import LengthPrefixed
  import opened MessageRelay

  type Reader = LengthPrefixed.VlessMessageStream

  /** How the relay takes the end of a poll: the end of the stream is a read of no bytes. */
  function EventOf(end: LengthPrefixed.ReadEnd): (e: MessageEvent)
    ensures e.Quiet? <==> end.Waiting?
  {
    match end
    case Delivered(m) => Incoming(m)
    case Waiting => Quiet
    case Ended => Incoming([])
    case TooSmall => Failure
    case Torn => Failure
    case Broken => Failure
  }

  /** Reads of no bytes at the end of the stream come after the messages. */
  function Closing(end: Option<LengthPrefixed.ReadEnd>): seq<seq<byte>> {
    if end == Some(LengthPrefixed.Ended) then [[]] else []
  }

  ghost function Ran(b: seq<byte>, inputs: seq<LengthPrefixed.Input>): LengthPrefixed.Ran {
    LengthPrefixed.RunReader(b, inputs, BUFFER_SIZE)
  }

  /** What `script` tells of a run of the reader. */
  ghost predicate Tells(script: seq<MessageEvent>, delivered: seq<seq<byte>>, end: Option<LengthPrefixed.ReadEnd>) {
    && Incomings(script) == delivered + Closing(end)
    && forall e :: e in script && e.Incoming? ==> |e.m| <= BUFFER_SIZE
  }

  /** How often the script is quiet. */
  function Quiets(script: seq<MessageEvent>): nat {
    if script == [] then 0 else (if script[0].Quiet? then 1 else 0) + Quiets(script[1..])
  }

  lemma TellsNothing()
    ensures Tells([], [], None)
  {
  }

  lemma TellsOne(end: LengthPrefixed.ReadEnd)
    requires !end.Delivered? && !end.Waiting?
    ensures Tells([EventOf(end)], [], Some(end))
  {
    assert [EventOf(end)][1..] == [];
  }

  lemma TellsMore(end: LengthPrefixed.ReadEnd, rest: seq<MessageEvent>, delivered: seq<seq<byte>>,
                  last: Option<LengthPrefixed.ReadEnd>)
    requires Tells(rest, delivered, last)
    requires end.Waiting? || (end.Delivered? && |end.m| <= BUFFER_SIZE)
    ensures Tells([EventOf(end)] + rest, (if end.Delivered? then [end.m] else []) + delivered, last)
  {
    assert ([EventOf(end)] + rest)[1..] == rest;
  }

  /**
   Polls the reader up to `polls` times, with the relay's buffer. What a poll answers does not depend on when it is
   made, so the answers are a script for the relay.
   */
  method Collect(s: Reader, polls: nat) returns (script: seq<MessageEvent>, ghost inputs: seq<LengthPrefixed.Input>)
    requires s.Valid() && !s.isEof
    modifies s`readEnd, s`isEof, s.readBuf, s.stream
    ensures s.Valid() && old(s.stream.delivered) <= s.stream.delivered
    ensures LengthPrefixed.RunFits(old(s.Unread()), inputs, BUFFER_SIZE)
    ensures var run := Ran(old(s.Unread()), inputs);
            && Tells(script, run.delivered, run.end) && run.bytes == s.Unread()
            && run.read == s.stream.delivered[|old(s.stream.delivered)|..]
            && (run.end == Some(LengthPrefixed.Ended) ==> run.bytes == [])
            && (|script| < polls ==> run.end.Some?)
            && (run.end == Some(LengthPrefixed.Broken) ==> s.stream.failures > old(s.stream.failures))
    ensures s.stream.pendings == old(s.stream.pendings) + Quiets(script)
    ensures s.stream.failures >= old(s.stream.failures)
  {
    hide LengthPrefixed.PollReader, LengthPrefixed.ChunksFit, LengthPrefixed.Parse, Flatten, Tells, EventOf;
    inputs := [];
    if polls == 0 {
      assert s.stream.delivered[|s.stream.delivered|..] == [];
      TellsNothing();
      return [], inputs;
    }
    ghost var first, before := s.Unread(), s.stream.delivered;
    var end;
    ghost var chunks, last;
    end, chunks, last := s.PollReadMessage(BUFFER_SIZE);
    ghost var input, middle := LengthPrefixed.Input(chunks, last), s.stream.delivered;
    AnswerFits(first, chunks, last);
    var rest: seq<MessageEvent> := [];
    ghost var later: seq<LengthPrefixed.Input> := [];
    if end.Delivered? || end.Waiting? {
      ghost var unread := s.Unread();
      rest, later := Collect(s, polls - 1);
      assert s.stream.delivered[|before|..] == middle[|before|..] + s.stream.delivered[|middle|..];
      TellsMore(end, rest, Ran(unread, later).delivered, Ran(unread, later).end);
    } else {
      TellsOne(end);
      assert [EventOf(end)] + rest == [EventOf(end)];
    }
    script, inputs := [EventOf(end)] + rest, [input] + later;
    assert inputs[1..] == later && inputs[0] == input;
    assert script[1..] == rest;
  }

  lemma AnswerFits(b: seq<byte>, chunks: seq<seq<byte>>, last: LengthPrefixed.Answer)
    requires LengthPrefixed.ChunksFit(b, chunks)
    ensures var r := LengthPrefixed.PollReader(b, chunks, last, BUFFER_SIZE);
            && !r.end.TooSmall?
            && (r.end.Delivered? ==> |r.end.m| <= BUFFER_SIZE)
            && (r.end.Ended? ==> r.bytes == [])
  {
    hide LengthPrefixed.PollReader, LengthPrefixed.ChunksFit, LengthPrefixed.Parse;
    LengthPrefixed.PollConserves(b, chunks, last, BUFFER_SIZE);
    LengthPrefixed.PayloadBound(b + Flatten(chunks));
  }

  /** The bytes a reader had, and those it was given since. */
  function Unparsed(unread: seq<byte>, before: seq<byte>, now: seq<byte>): seq<byte>
    requires before <= now
  {
    unread + now[|before|..]
  }

  /** What was handed on of a run: messages of the peer, up to an empty one; all of them once the relay is through. */
  ghost predicate HandedOn(relayed: seq<seq<byte>>, finished: bool, ms: seq<seq<byte>>, all: bool) {
    && relayed <= UpToEmpty(ms)
    && (finished && all ==> relayed == UpToEmpty(ms))
  }

  /**
   One direction from a length-prefixed stream. Whatever messages of at most 65535 bytes the peer wrote, and however
   their bytes arrive, the sink is handed them whole and in order, up to the first empty one; and once the relay is
   through and every byte has arrived, all of those. It is not through only if an operation of either side failed, or
   every poll the budget allowed found one pending.
   */
  method RelayFromStream(s: Reader, w: MessageSink, needFlush: bool, polls: nat, turns: seq<Turn>)
    returns (finished: bool, source: MessageSource)
    requires s.Valid() && !s.isEof && !w.closed && (needFlush || w.flushed == |w.accepted|)
    modifies s`readEnd, s`isEof, s.readBuf, s.stream, w
    ensures s.Valid() && old(s.stream.delivered) <= s.stream.delivered
    ensures old(w.accepted) <= w.accepted && (finished <==> w.closed)
    ensures fresh(source) && source.Valid()
    ensures !finished ==>
              || source.failures + w.failures > old(w.failures)
              || source.pendings + w.pendings >= old(w.pendings) + Allowed(turns)
    ensures forall ms, rest ::
              LengthPrefixed.Fitting(ms) &&
              Unparsed(old(s.Unread()), old(s.stream.delivered), s.stream.delivered) + rest
              == Encoded(LengthPrefixed.Encode, ms) ==>
                HandedOn(w.accepted[|old(w.accepted)|..], finished, ms, rest == [])
  {
    hide LengthPrefixed.RunFits, LengthPrefixed.RunReader, LengthPrefixed.Encode, UpToEmpty, Encoded, Tells, HandedOn;
    ghost var first, inputs := s.Unread(), [];
    var script;
    script, inputs := Collect(s, polls);
    ghost var run := Ran(first, inputs);
    assert forall e :: e in script && e.Incoming? ==> |e.m| <= BUFFER_SIZE by { ScriptTells(script, run); }
    source := new MessageSource(script);
    finished := RelayOneDirection(source, w, needFlush, turns);
    assert source.delivered[0..] == source.delivered;
    ghost var relayed := w.accepted[|old(w.accepted)|..];
    forall ms, rest | LengthPrefixed.Fitting(ms) && first + run.read + rest == Encoded(LengthPrefixed.Encode, ms)
      ensures HandedOn(relayed, finished, ms, rest == [])
    {
      LengthPrefixed.MessagesArrive(first, inputs, BUFFER_SIZE, ms, rest);
      ScriptTells(script, run);
      if run.end == Some(LengthPrefixed.Ended) && rest == [] {
        NothingLeft(ms[|run.delivered|..]);
      }
      assert source.delivered <= source.supply <= run.delivered + [[]];
      RelayedFrom(run.delivered, source.delivered, relayed, finished, ms, rest == []);
    }
  }

  lemma ScriptTells(script: seq<MessageEvent>, run: LengthPrefixed.Ran)
    requires Tells(script, run.delivered, run.end)
    ensures forall e :: e in script && e.Incoming? ==> |e.m| <= BUFFER_SIZE
    ensures Incomings(script) == run.delivered + Closing(run.end)
  {
  }

  lemma NothingLeft(ms: seq<seq<byte>>)
    requires Encoded(LengthPrefixed.Encode, ms) == []
    ensures ms == []
  {
    hide U16ToBe;
  }

  /**
   Of the messages `got` by the reader the relay has `taken` some, the end after them included; an end that is not
   an empty message is reached only behind all of them.
   */
  lemma RelayedFrom(got: seq<seq<byte>>, taken: seq<seq<byte>>, relayed: seq<seq<byte>>, finished: bool,
                    ms: seq<seq<byte>>, all: bool)
    requires got <= ms && taken <= got + [[]] && relayed <= UpToEmpty(taken)
    requires finished ==> [] in taken && relayed == UpToEmpty(taken)
    requires |taken| > |got| && all ==> got == ms
    ensures HandedOn(relayed, finished, ms, all)
  {
    UpToEmptyPrefix(taken, got + [[]]);
    UpToEmptyEnd(got);
    UpToEmptyPrefix(got, ms);
    if finished && [] !in got {
      assert |taken| > |got|;
    }
  }

  lemma {:induction false} UpToEmptyPrefix(a: seq<seq<byte>>, b: seq<seq<byte>>)
    requires a <= b
    ensures UpToEmpty(a) <= UpToEmpty(b)
    ensures [] in a ==> UpToEmpty(a) == UpToEmpty(b)
  {
    if a != [] {
      UpToEmptyPrefix(a[1..], b[1..]);
    }
  }

  lemma {:induction false} UpToEmptyEnd(ms: seq<seq<byte>>)
    ensures UpToEmpty(ms + [[]]) == UpToEmpty(ms)
  {
    if ms != [] {
      assert (ms + [[]])[1..] == ms[1..] + [[]];
      UpToEmptyEnd(ms[1..]);
    }
  }
}
