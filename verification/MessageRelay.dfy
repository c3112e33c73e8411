/** Relaying whole messages in one direction, one at a time, between two message streams. */
module MessageRelay {
  import opened Bytes
  import opened Transport

  const BUFFER_SIZE: nat := 65535

  /** The end of a message stream is read like an empty message: as no bytes. */
  datatype MessageEvent = Quiet | Failure | Incoming(m: seq<byte>)

  /** The messages of a script, in order. */
  function Incomings(script: seq<MessageEvent>): seq<seq<byte>> {
    if script == [] then []
    else (if script[0].Incoming? then [script[0].m] else []) + Incomings(script[1..])
  }

  class MessageSource {
    var script: seq<MessageEvent>
    ghost var delivered: seq<seq<byte>>
    ghost var pendings: nat
    ghost var failures: nat
    ghost const supply: seq<seq<byte>>  // all it has delivered and will deliver

    /** Every message fits the relay's buffer, as a UDP datagram or a length-prefixed message does. */
    ghost predicate Valid()
      reads this
    {
      && (forall e :: e in script && e.Incoming? ==> |e.m| <= BUFFER_SIZE)
      && delivered + Incomings(script) == supply
    }

    constructor (script: seq<MessageEvent>)
      requires forall e :: e in script && e.Incoming? ==> |e.m| <= BUFFER_SIZE
      ensures Valid() && delivered == [] && supply == Incomings(script) && pendings == failures == 0
    {
      this.script, delivered, pendings, failures := script, [], 0, 0;
      supply := Incomings(script);
    }

    /** `poll_read_message` into the relay's buffer. */
    method Poll(buf: array<byte>) returns (r: Poll<nat>)
      requires Valid() && buf.Length == BUFFER_SIZE
      modifies this, buf
      ensures Valid()
      ensures r.Ready? ==> r.value <= BUFFER_SIZE && delivered == old(delivered) + [buf[..r.value]]
      ensures !r.Ready? ==> delivered == old(delivered)
      ensures pendings == old(pendings) + if r.Pending? then 1 else 0
      ensures failures == old(failures) + if r.Failed? then 1 else 0
      ensures if old(script) == [] then script == [] && r.Pending? else |script| < |old(script)|
    {
      var e := Quiet;
      if script != [] {
        e, script := script[0], script[1..];
      }
      match e {
        case Quiet =>
          r := Pending;
          pendings := pendings + 1;
        case Failure =>
          r := Failed(false);
          failures := failures + 1;
        case Incoming(m) =>
          forall i | 0 <= i < |m| {
            buf[i] := m[i];
          }
          assert buf[..|m|] == m;
          delivered := delivered + [m];
          r := Ready(|m|);
      }
    }
  }

  class MessageSink {
    var script: seq<WriteEvent>
    ghost var accepted: seq<seq<byte>>
    ghost var flushed: nat
    ghost var pendings: nat
    ghost var failures: nat
    ghost var closed: bool

    method Next() returns (e: WriteEvent)
      modifies this
      ensures accepted == old(accepted) && flushed == old(flushed) && closed == old(closed)
      ensures pendings == old(pendings) + if e.Stuck? then 1 else 0
      ensures failures == old(failures) + if e.Refuse? then 1 else 0
      ensures if old(script) == [] then script == [] && e.Stuck? else |script| < |old(script)|
    {
      e := Stuck;
      if script != [] {
        e, script := script[0], script[1..];
      }
      if e.Stuck? {
        pendings := pendings + 1;
      } else if e.Refuse? {
        failures := failures + 1;
      }
    }

    /** `poll_write_message`: a message is taken whole or not at all. */
    method PollWrite(m: seq<byte>) returns (r: Poll<()>)
      requires m != [] && !closed
      modifies this
      ensures accepted == if r.Ready? then old(accepted) + [m] else old(accepted)
      ensures flushed == old(flushed) && closed == old(closed)
      ensures pendings == old(pendings) + if r.Pending? then 1 else 0
      ensures failures == old(failures) + if r.Failed? then 1 else 0
      ensures if old(script) == [] then script == [] && r.Pending? else |script| < |old(script)|
    {
      var e := Next();
      r := if e.Stuck? then Pending else if e.Refuse? then Failed(false) else Ready(());
      if r.Ready? {
        accepted := accepted + [m];
      }
    }

    method PollFlush() returns (r: Poll<()>)
      modifies this
      ensures closed == old(closed)
      ensures accepted == old(accepted) && flushed == if r.Ready? then |accepted| else old(flushed)
      ensures pendings == old(pendings) + if r.Pending? then 1 else 0
      ensures failures == old(failures) + if r.Failed? then 1 else 0
      ensures if old(script) == [] then script == [] && r.Pending? else |script| < |old(script)|
    {
      var e := Next();
      r := if e.Stuck? then Pending else if e.Refuse? then Failed(false) else Ready(());
      if r.Ready? {
        flushed := |accepted|;
      }
    }

    /** A keep-alive; a ready result says whether one was written. */
    method PollWritePing() returns (r: Poll<bool>)
      modifies this
      ensures accepted == old(accepted) && flushed == old(flushed) && closed == old(closed)
      ensures pendings == old(pendings) + if r.Pending? then 1 else 0
      ensures failures == old(failures) + if r.Failed? then 1 else 0
      ensures if old(script) == [] then script == [] && r.Pending? else |script| < |old(script)|
    {
      var e := Next();
      r := if e.Stuck? then Pending else if e.Refuse? then Failed(false) else Ready(e.n > 0);
    }

    method PollShutdown() returns (r: Poll<()>)
      modifies this
      ensures accepted == old(accepted) && flushed == old(flushed) && closed == (old(closed) || r.Ready?)
      ensures pendings == old(pendings) + if r.Pending? then 1 else 0
      ensures failures == old(failures) + if r.Failed? then 1 else 0
    {
      var e := Next();
      r := if e.Stuck? then Pending else if e.Refuse? then Failed(false) else Ready(());
      closed := closed || r.Ready?;
    }
  }

  /** The messages before the first empty one. */
  function UpToEmpty(ms: seq<seq<byte>>): seq<seq<byte>> {
    if ms == [] || ms[0] == [] then [] else [ms[0]] + UpToEmpty(ms[1..])
  }

  /** All messages are relayed exactly if none of them is empty. */
  lemma {:induction false} AllRelayedIff(ms: seq<seq<byte>>)
    ensures UpToEmpty(ms) == ms <==> [] !in ms
  {
    if ms != [] && ms[0] != [] {
      AllRelayedIff(ms[1..]);
      assert ms == [ms[0]] + ms[1..];
    }
  }

  class CopyBuffer {
    var readDone: bool
    var needFlush: bool
    var needWritePing: bool
    var cacheLength: nat
    const buf: array<byte>

    ghost predicate Valid()
      reads this
    {
      buf.Length == BUFFER_SIZE && cacheLength <= BUFFER_SIZE
    }

    /** The message read and not yet written, if there is one. */
    ghost function Waiting(): seq<seq<byte>>
      requires Valid()
      reads this, buf
    {
      if cacheLength > 0 then [buf[..cacheLength]] else []
    }

    ghost predicate Clean(w: MessageSink)
      reads this, w
    {
      !w.closed && (!needFlush ==> w.flushed == |w.accepted|)
    }

    constructor (needFlush: bool)
      ensures Valid() && Waiting() == [] && !readDone && this.needFlush == needFlush && fresh(buf)
    {
      readDone, this.needFlush, needWritePing, cacheLength := false, needFlush, false, 0;
      buf := new byte[BUFFER_SIZE](_ => 0);
    }

    /** The reading part of a turn. */
    method Fetch(r: MessageSource) returns (p: Poll<bool>, ghost got: seq<seq<byte>>)
      requires Valid() && r.Valid()
      modifies this`readDone, this`cacheLength, buf, r
      ensures Valid() && r.Valid()
      ensures r.delivered == old(r.delivered) + got && |got| <= 1
      ensures Waiting() == old(Waiting()) + UpToEmpty(got)
      ensures readDone == (old(readDone) || got == [[]])
      ensures p == Ready(true) ==> cacheLength > 0
      ensures r.pendings >= old(r.pendings) && (p.Pending? ==> r.pendings > old(r.pendings))
      ensures r.failures >= old(r.failures) && (p.Failed? ==> r.failures > old(r.failures))
      ensures |r.script| <= |old(r.script)|
      ensures !p.Pending? && !old(readDone) && old(cacheLength) == 0 ==> |r.script| < |old(r.script)|
      ensures old(readDone) || old(cacheLength) > 0 ==> p == Ready(false) && got == []
    {
      got := [];
      if readDone || cacheLength > 0 {
        return Ready(false), got;
      }
      var q := r.Poll(buf);
      match q {
        case Pending => p := Pending;
        case Failed(retry) => p := Failed(retry);
        case Ready(n) =>
          got := [buf[..n]];
          assert got[1..] == [];
          if n == 0 {
            readDone := true;
            p := Ready(false);
          } else {
            cacheLength := n;
            p := Ready(true);
          }
      }
    }

    /** The writing part of a turn. */
    method Deliver(w: MessageSink) returns (p: Poll<bool>)
      requires Valid() && Clean(w)
      modifies this`cacheLength, this`needFlush, this`needWritePing, w
      ensures Valid() && Clean(w)
      ensures w.accepted + Waiting() == old(w.accepted) + old(Waiting()) && old(w.accepted) <= w.accepted
      ensures w.pendings >= old(w.pendings) && (p.Pending? ==> w.pendings > old(w.pendings))
      ensures w.failures >= old(w.failures) && (p.Failed? ==> w.failures > old(w.failures))
      ensures |w.script| <= |old(w.script)|
      ensures p.Ready? ==> cacheLength == 0 && (p.value <==> old(cacheLength) > 0)
      ensures p == Ready(true) ==> |w.script| < |old(w.script)| && needFlush
    {
      if cacheLength == 0 {
        return Ready(false);
      }
      var q := w.PollWrite(buf[..cacheLength]);
      match q {
        case Pending => p := Pending;
        case Failed(retry) => p := Failed(retry);
        case Ready(_) =>
          cacheLength := 0;
          needFlush, needWritePing := true, false;
          p := Ready(true);
      }
    }

    /** The keep-alive part of a turn. */
    method Ping(w: MessageSink) returns (p: Poll<()>)
      requires Valid() && Clean(w)
      modifies this`needFlush, this`needWritePing, w
      ensures Valid() && Clean(w) && w.accepted == old(w.accepted) && (old(needFlush) ==> needFlush)
      ensures p.Ready? ==> !needWritePing
      ensures if !old(needWritePing) then w.script == old(w.script)
              else if old(w.script) == [] then p.Pending? else |w.script| < |old(w.script)|
      ensures w.pendings >= old(w.pendings) && (p.Pending? ==> w.pendings > old(w.pendings))
      ensures w.failures >= old(w.failures) && (p.Failed? ==> w.failures > old(w.failures))
      ensures |w.script| <= |old(w.script)|
    {
      p := Ready(());
      if needWritePing {
        var q := w.PollWritePing();
        match q {
          case Pending => p := Pending;
          case Failed(retry) => p := Failed(retry);
          case Ready(written) =>
            needWritePing := false;
            needFlush := needFlush || written;
        }
      }
    }

    /** One turn of the loop: the result to return, or none if it goes round again. */
    method Turn(r: MessageSource, w: MessageSink) returns (outcome: Option<Poll<()>>, ghost got: seq<seq<byte>>)
      requires Valid() && r.Valid() && Clean(w)
      modifies this, buf, r, w
      ensures Valid() && r.Valid() && Clean(w)
      ensures r.delivered == old(r.delivered) + got && (old(readDone) ==> got == []) && |got| <= 1
      ensures readDone == (old(readDone) || got == [[]])
      ensures w.accepted + Waiting() == old(w.accepted) + old(Waiting()) + UpToEmpty(got)
      ensures r.pendings >= old(r.pendings) && w.pendings >= old(w.pendings) && old(w.accepted) <= w.accepted
      ensures outcome.Some? && outcome.value.Ready? ==> readDone && cacheLength == 0 && w.flushed == |w.accepted|
      ensures outcome.Some? && outcome.value.Pending? ==>
                && r.pendings + w.pendings > old(r.pendings + w.pendings)
                && (w.pendings > old(w.pendings) || (cacheLength == 0 && w.flushed == |w.accepted|))
      ensures r.failures >= old(r.failures) && w.failures >= old(w.failures)
      ensures outcome.Some? && outcome.value.Failed? ==> r.failures + w.failures > old(r.failures + w.failures)
      ensures outcome.None? ==> |r.script| + |w.script| < |old(r.script)| + |old(w.script)|
    {
      hide UpToEmpty, Incomings;
      var reading: Poll<bool>;
      reading, got := Fetch(r);
      Associate(old(w.accepted), old(Waiting()), UpToEmpty(got));
      if reading.Failed? {
        return Some(Failed(reading.retry)), got;
      }
      var writing := Deliver(w);
      if writing.Failed? {
        return Some(Failed(writing.retry)), got;
      }
      var pinging: Poll<()> := Ready(());
      if !writing.Pending? {
        pinging := Ping(w);
        if pinging.Failed? {
          return Some(pinging), got;
        }
      }
      var stalled := reading.Pending? || writing.Pending? || pinging.Pending?;
      if reading == Ready(true) && writing == Ready(true) && !stalled {
        return None, got;
      }
      outcome := Settle(w, stalled);
    }

    /** The end of a turn: flushes if that is due, and says whether to go round again. */
    method Settle(w: MessageSink, stalled: bool) returns (outcome: Option<Poll<()>>)
      requires Valid() && Clean(w)
      modifies this`needFlush, w
      ensures Valid() && Clean(w) && w.accepted == old(w.accepted)
      ensures outcome.Some? && outcome.value.Ready? ==> readDone && cacheLength == 0 && w.flushed == |w.accepted|
      ensures w.pendings >= old(w.pendings) && w.failures >= old(w.failures) && |w.script| <= |old(w.script)|
      ensures outcome.Some? && outcome.value.Pending? ==>
                w.pendings > old(w.pendings) || (stalled && w.flushed == |w.accepted|)
      ensures outcome.Some? && outcome.value.Failed? ==> w.failures > old(w.failures)
      ensures outcome.None? ==>
                || |w.script| < |old(w.script)|
                || (!old(needFlush) && !stalled && !(readDone && cacheLength == 0))
    {
      if needFlush {
        var f := w.PollFlush();
        if !f.Ready? {
          return Some(f);
        }
        needFlush := false;
        return None;
      }
      if readDone && cacheLength == 0 {
        return Some(Ready(()));
      }
      if stalled {
        return Some(Pending);
      }
      return None;
    }

    /**
     `poll_copy`. For every behaviour of both sides: what was accepted, then the message waiting, is what was
     accepted before, then what was waiting, then the messages read up to the first empty one, each whole and in
     order. Ready means an empty read ended it and everything is written and flushed; Pending that an operation was,
     and if none of the sink was, that everything read is written and flushed; Failed that one failed.
     */
    method PollCopy(proceed: bool, r: MessageSource, w: MessageSink) returns (status: Poll<()>)
      requires Valid() && r.Valid() && Clean(w)
      modifies this, buf, r, w
      ensures Valid() && r.Valid() && Clean(w)
      ensures old(r.delivered) <= r.delivered
      ensures var read := r.delivered[|old(r.delivered)|..];
              && w.accepted + Waiting() == old(w.accepted) + old(Waiting()) + UpToEmpty(read)
              && (readDone <==> old(readDone) || [] in read)
              && (old(readDone) ==> read == [])
      ensures status.Ready? ==> readDone && cacheLength == 0 && w.flushed == |w.accepted|
      ensures r.pendings >= old(r.pendings) && w.pendings >= old(w.pendings) && old(w.accepted) <= w.accepted
      ensures status.Pending? && proceed ==>
                && r.pendings + w.pendings > old(r.pendings + w.pendings)
                && (w.pendings > old(w.pendings) || (cacheLength == 0 && w.flushed == |w.accepted|))
      ensures r.failures >= old(r.failures) && w.failures >= old(w.failures)
      ensures status.Failed? ==> r.failures + w.failures > old(r.failures + w.failures)
    {
      hide UpToEmpty, Incomings;
      assert r.delivered[|old(r.delivered)|..] == [];
      NothingRead(old(w.accepted) + old(Waiting()));
      if !proceed {
        return Pending;
      }
      ghost var read: seq<seq<byte>> := [];
      while true
        invariant Valid() && r.Valid() && Clean(w)
        invariant r.delivered == old(r.delivered) + read
        invariant w.accepted + Waiting() == old(w.accepted) + old(Waiting()) + UpToEmpty(read)
        invariant (readDone <==> old(readDone) || [] in read) && (old(readDone) ==> read == [])
        invariant r.pendings >= old(r.pendings) && w.pendings >= old(w.pendings) && old(w.accepted) <= w.accepted
        invariant r.failures >= old(r.failures) && w.failures >= old(w.failures)
        decreases |r.script| + |w.script|
      {
        var outcome: Option<Poll<()>>;
        ghost var got, before := read, read;
        outcome, got := Turn(r, w);
        UpToEmptyJoin(before, got);
        Associate(old(w.accepted) + old(Waiting()), UpToEmpty(before), UpToEmpty(got));
        Associate(old(r.delivered), before, got);
        read := before + got;
        if outcome.Some? {
          assert r.delivered[|old(r.delivered)|..] == read;
          return outcome.value;
        }
      }
    }
  }

  datatype TransferState = Running | ShuttingDown | Done

  /** How far the direction has come: its sink is shut down last, after every message is written and flushed. */
  ghost predicate DirectionOk(state: TransferState, buf: CopyBuffer, w: MessageSink)
    reads buf, w
  {
    && buf.Valid()
    && (w.closed <==> state.Done?)
    && (state.Running? ==> buf.Clean(w))
    && (!state.Running? ==> buf.readDone && buf.cacheLength == 0 && w.flushed == |w.accepted|)
  }

  /** `transfer_one_direction` */
  method TransferOneDirection(proceed: bool, state: TransferState, buf: CopyBuffer, r: MessageSource, w: MessageSink)
    returns (status: Poll<()>, state': TransferState)
    requires DirectionOk(state, buf, w) && r.Valid()
    modifies buf, buf.buf, r, w
    ensures DirectionOk(state', buf, w) && r.Valid()
    ensures old(r.delivered) <= r.delivered
    ensures var read := r.delivered[|old(r.delivered)|..];
            && w.accepted + buf.Waiting() == old(w.accepted) + old(buf.Waiting()) + UpToEmpty(read)
            && (buf.readDone <==> old(buf.readDone) || [] in read)
            && (old(buf.readDone) ==> read == [])
    ensures (status.Ready? <==> state'.Done?) && old(w.accepted) <= w.accepted
    ensures r.pendings >= old(r.pendings) && w.pendings >= old(w.pendings)
    ensures status.Pending? && proceed ==>
              && r.pendings + w.pendings > old(r.pendings + w.pendings)
              && (w.pendings > old(w.pendings) || (buf.cacheLength == 0 && w.flushed == |w.accepted|))
    ensures r.failures >= old(r.failures) && w.failures >= old(w.failures)
    ensures status.Failed? ==> r.failures + w.failures > old(r.failures + w.failures)
  {
    hide UpToEmpty, Incomings;
    state' := state;
    assert r.delivered[|old(r.delivered)|..] == [];
    NothingRead(w.accepted + buf.Waiting());
    if state'.Running? {
      status := buf.PollCopy(proceed, r, w);
      if !status.Ready? {
        return;
      }
      state' := ShuttingDown;
    }
    if state'.ShuttingDown? {
      status := w.PollShutdown();
      if !status.Ready? {
        return;
      }
      state' := Done;
    }
    status := Ready(());
  }

  /** One poll of a direction: what the budget says, whether the timer has fired, and if the sink can be pinged. */
  datatype Turn = Turn(proceed: bool, ping: bool, supported: bool)

  /** How many polls the budget allows. */
  function Allowed(turns: seq<Turn>): nat {
    if turns == [] then 0 else Allowed(turns[..|turns| - 1]) + if turns[|turns| - 1].proceed then 1 else 0
  }

  /**
   The direction from its start: polled once per turn until it is done or dropped, the sink holds the messages read
   before the first empty one, less at most the last of them; once finished it holds them all, flushed, and is shut
   down. It does not finish only if an operation failed, or every poll the budget allowed found one pending.
   */
  method RelayOneDirection(r: MessageSource, w: MessageSink, needFlush: bool, turns: seq<Turn>) returns (finished: bool)
    requires r.Valid() && !w.closed && (needFlush || w.flushed == |w.accepted|)
    modifies r, w
    ensures r.Valid() && old(r.delivered) <= r.delivered
    ensures var relayed := UpToEmpty(r.delivered[|old(r.delivered)|..]);
            && old(w.accepted) <= w.accepted <= old(w.accepted) + relayed
            && |w.accepted| + 1 >= |old(w.accepted) + relayed|
            && (finished ==> w.accepted == old(w.accepted) + relayed)
    ensures finished <==> w.closed
    ensures finished ==> [] in r.delivered[|old(r.delivered)|..] && w.flushed == |w.accepted|
    ensures !finished ==>
              || r.failures + w.failures > old(r.failures + w.failures)
              || r.pendings + w.pendings >= old(r.pendings + w.pendings) + Allowed(turns)
  {
    hide UpToEmpty, Incomings;
    var buf := new CopyBuffer(needFlush);
    var state, status, i := Running, Pending, 0;
    ghost var read: seq<seq<byte>> := [];
    NothingRead(w.accepted);
    while i < |turns| && status.Pending?
      invariant DirectionOk(state, buf, w) && r.Valid() && fresh(buf) && fresh(buf.buf)
      invariant r.delivered == old(r.delivered) + read && (status.Ready? <==> state.Done?)
      invariant w.accepted + buf.Waiting() == old(w.accepted) + UpToEmpty(read) && old(w.accepted) <= w.accepted
      invariant i <= |turns| && (buf.readDone <==> [] in read)
      invariant r.failures + w.failures >= old(r.failures + w.failures)
      invariant status.Failed? ==> r.failures + w.failures > old(r.failures + w.failures)
      invariant status.Pending? ==> r.pendings + w.pendings >= old(r.pendings + w.pendings) + Allowed(turns[..i])
    {
      ghost var before := r.delivered;
      if turns[i].ping {
        buf.needWritePing := turns[i].supported;
      }
      status, state := TransferOneDirection(turns[i].proceed, state, buf, r, w);
      ghost var got := r.delivered[|before|..];
      UpToEmptyJoin(read, got);
      Associate(old(w.accepted), UpToEmpty(read), UpToEmpty(got));
      Associate(old(r.delivered), read, got);
      read := read + got;
      assert turns[..i + 1][..i] == turns[..i];
      i := i + 1;
    }
    finished := status.Ready?;
    assert turns[..|turns|] == turns;
    assert r.delivered[|old(r.delivered)|..] == read;
  }

  lemma NothingRead(base: seq<seq<byte>>)
    ensures base + UpToEmpty([]) == base
  {
  }

  /** Reading goes on only while no empty message has come. */
  lemma {:induction false} UpToEmptyJoin(read: seq<seq<byte>>, got: seq<seq<byte>>)
    requires [] in read ==> got == []
    ensures UpToEmpty(read + got) == UpToEmpty(read) + UpToEmpty(got)
  {
    if got == [] {
      assert read + got == read;
    } else if read == [] {
      assert read + got == got;
    } else {
      assert (read + got)[1..] == read[1..] + got;
      UpToEmptyJoin(read[1..], got);
    }
  }
}
