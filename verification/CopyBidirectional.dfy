/** Two copiers back to back: each direction is relayed, flushed and then shut down on its own. */
module CopyBidirectional {
  import opened Bytes
  import opened Transport
  import opened CopyBuffer

  datatype TransferState = Running | ShuttingDown | Done

  /** How far a direction has come: its sink is shut down last, after every byte is written and flushed. */
  ghost predicate DirectionOk(state: TransferState, buf: CopyBuffer, w: Sink)
    reads buf, w
  {
    && buf.Valid()
    && w.Valid()
    && (w.closed <==> state.Done?)
    && (state.Running? ==> buf.Clean(w))
    && (!state.Running? ==> buf.readDone && buf.cacheLength == 0 && buf.Flushed(w))
  }

  /** Nothing, unless the caller left bytes unflushed and did not ask for an initial flush. */
  ghost function Exempt(needFlush: bool, w: Sink): nat
    reads w
  {
    if needFlush || w.flushed == |w.accepted| then 0 else |w.accepted|
  }

  /** `transfer_one_direction` */
  method TransferOneDirection(proceed: bool, state: TransferState, buf: CopyBuffer, r: Source, w: Sink)
    returns (status: Poll<()>, state': TransferState)
    requires DirectionOk(state, buf, w)
    modifies buf, buf.buf, r, w
    ensures DirectionOk(state', buf, w)
    ensures old(r.delivered) <= r.delivered
    ensures w.accepted + buf.Contents() == old(w.accepted) + old(buf.Contents()) + r.delivered[|old(r.delivered)|..]
    ensures (buf.readDone ==> old(buf.readDone) || r.ended) && (old(r.ended) ==> r.ended)
    ensures (status.Ready? <==> state'.Done?) && (state.Done? ==> state'.Done?) && old(w.flushed) <= w.flushed
    ensures r.pendings >= old(r.pendings) && w.pendings >= old(w.pendings)
    ensures status.Pending? && proceed ==>
              && r.pendings + w.pendings > old(r.pendings + w.pendings)
              && (w.pendings > old(w.pendings) || (buf.cacheLength == 0 && buf.Flushed(w)))
    ensures r.failures >= old(r.failures) && w.failures >= old(w.failures)
    ensures status.Failed? ==> r.failures + w.failures > old(r.failures + w.failures)
  {
    hide Ring, Volume;
    state' := state;
    assert r.delivered[|old(r.delivered)|..] == [];
    assert w.accepted + buf.Contents() + [] == w.accepted + buf.Contents();
    if state'.Running? {
      ghost var rounds;
      status, rounds := buf.PollCopy(proceed, r, w);
      if !status.Ready? {
        return;
      }
      state' := ShuttingDown;
    }
    if state'.ShuttingDown? {
      status := w.PollShutdown();
      if !status.Ready? {
        return;
      }
      state' := Done;
    }
    status := Ready(());
  }

  /** The same, with the account of everything since the relay began. */
  method Transfer(proceed: bool, state: TransferState, buf: CopyBuffer, r: Source, w: Sink,
                  ghost start: nat, ghost before: seq<byte>)
    returns (status: Poll<()>, state': TransferState)
    requires DirectionOk(state, buf, w) && Relays(r.delivered, start, before, w.accepted, buf.Contents())
    modifies buf, buf.buf, r, w
    ensures DirectionOk(state', buf, w) && Relays(r.delivered, start, before, w.accepted, buf.Contents())
    ensures old(r.delivered) <= r.delivered && old(w.flushed) <= w.flushed
    ensures (buf.readDone ==> old(buf.readDone) || r.ended) && (old(r.ended) ==> r.ended)
    ensures (status.Ready? <==> state'.Done?) && (state.Done? ==> state'.Done?)
    ensures r.pendings >= old(r.pendings) && w.pendings >= old(w.pendings)
    ensures status.Pending? && proceed ==> r.pendings + w.pendings > old(r.pendings + w.pendings)
    ensures r.failures >= old(r.failures) && w.failures >= old(w.failures)
    ensures status.Failed? ==> r.failures + w.failures > old(r.failures + w.failures)
  {
    hide Ring, Relays;
    ghost var delivered, accepted, waiting := r.delivered, w.accepted, buf.Contents();
    status, state' := TransferOneDirection(proceed, state, buf, r, w);
    RelaysOn(delivered, r.delivered, start, before, accepted, waiting, w.accepted, buf.Contents());
  }

  /** How often one direction found an operation pending. */
  ghost function Pendings(r: Source, w: Sink): nat
    reads r, w
  {
    r.pendings + w.pendings
  }

  ghost function Failures(a: Source, aw: Sink, b: Source, bw: Sink): nat
    reads a, aw, b, bw
  {
    a.failures + bw.failures + (b.failures + aw.failures)
  }

  class Copier {
    const aSource: Source
    const aSink: Sink
    const bSource: Source
    const bSink: Sink
    const aBuf: CopyBuffer
    const bBuf: CopyBuffer
    var aToB: TransferState
    var bToA: TransferState

    ghost const aStart: nat          // how much each source had delivered, and each sink
    ghost const bStart: nat          // accepted, when the relay began
    ghost const aBefore: seq<byte>
    ghost const bBefore: seq<byte>

    ghost predicate Separate() {
      aSource != bSource && aSink != bSink && aBuf != bBuf && aBuf.buf != bBuf.buf
    }

    /** Both directions are in order, and neither has lost, repeated or reordered a byte since the start. */
    ghost predicate Valid()
      reads this, aSource, aSink, bSource, bSink, aBuf, aBuf.buf, bBuf, bBuf.buf
    {
      && Separate()
      && DirectionOk(aToB, aBuf, bSink) && DirectionOk(bToA, bBuf, aSink)
      && Relays(aSource.delivered, aStart, bBefore, bSink.accepted, aBuf.Contents())
      && Relays(bSource.delivered, bStart, aBefore, aSink.accepted, bBuf.Contents())
      && (aBuf.readDone ==> aSource.ended) && (bBuf.readDone ==> bSource.ended)
    }

    constructor (a: Source, aw: Sink, b: Source, bw: Sink, aNeedFlush: bool, bNeedFlush: bool, aSize: nat, bSize: nat)
      requires a != b && aw != bw && aSize > 0 && bSize > 0
      requires aw.Valid() && !aw.closed && bw.Valid() && !bw.closed
      ensures Valid() && fresh(aBuf) && fresh(aBuf.buf) && fresh(bBuf) && fresh(bBuf.buf)
      ensures aSource == a && aSink == aw && bSource == b && bSink == bw
      ensures aStart == |a.delivered| && bStart == |b.delivered| && aBefore == aw.accepted && bBefore == bw.accepted
      ensures aToB == Running && bToA == Running
      ensures aBuf.exempt == Exempt(bNeedFlush, bw) && bBuf.exempt == Exempt(aNeedFlush, aw)
    {
      aSource, aSink, bSource, bSink := a, aw, b, bw;
      var ab := new CopyBuffer(aSize, bNeedFlush, Exempt(bNeedFlush, bw));
      var ba := new CopyBuffer(bSize, aNeedFlush, Exempt(aNeedFlush, aw));
      aBuf, bBuf := ab, ba;
      aToB, bToA := Running, Running;
      aStart, bStart, aBefore, bBefore := |a.delivered|, |b.delivered|, aw.accepted, bw.accepted;
    }

    /** One poll of the future; `pings` says which side's keep-alive timer fired. */
    method Poll(proceed: bool, ping: bool, aPings: bool, bPings: bool) returns (status: Poll<()>)
      requires Valid()
      modifies this, aSource, aSink, bSource, bSink, aBuf, aBuf.buf, bBuf, bBuf.buf
      ensures Valid()
      ensures old(aSource.delivered) <= aSource.delivered && old(bSource.delivered) <= bSource.delivered
      ensures old(aSink.flushed) <= aSink.flushed && old(bSink.flushed) <= bSink.flushed
      ensures status.Ready? <==> aToB.Done? && bToA.Done?
      ensures (old(aToB).Done? ==> aToB.Done?) && (old(bToA).Done? ==> bToA.Done?)
      ensures Pendings(aSource, bSink) >= old(Pendings(aSource, bSink))
      ensures Pendings(bSource, aSink) >= old(Pendings(bSource, aSink))
      ensures status.Pending? && proceed ==>
                && (aToB.Done? || Pendings(aSource, bSink) > old(Pendings(aSource, bSink)))
                && (bToA.Done? || Pendings(bSource, aSink) > old(Pendings(bSource, aSink)))
      ensures Failures(aSource, aSink, bSource, bSink) >=
              old(Failures(aSource, aSink, bSource, bSink)) + if status.Failed? then 1 else 0
      ensures status.Ready? ==>
                && aSource.ended && bSource.ended && aSink.closed && bSink.closed
                && bSink.accepted == bBefore + aSource.delivered[aStart..]
                && aSink.accepted == aBefore + bSource.delivered[bStart..]
    {
      hide Ring, Relays;
      if ping {
        aBuf.needWritePing := bPings;
        bBuf.needWritePing := aPings;
      }
      var s1, s2 := Both(proceed);
      if s1.Failed? {
        status := s1;
      } else if s2.Failed? {
        status := s2;
      } else if s1.Ready? && s2.Ready? {
        status := s1;
        RelaysDone(aSource.delivered, aStart, bBefore, bSink.accepted);
        RelaysDone(bSource.delivered, bStart, aBefore, aSink.accepted);
      } else {
        status := Pending;
      }
    }

    /** Both directions go on, whatever becomes of the other. */
    method Both(proceed: bool) returns (s1: Poll<()>, s2: Poll<()>)
      requires Valid()
      modifies this, aSource, aSink, bSource, bSink, aBuf, aBuf.buf, bBuf, bBuf.buf
      ensures Valid()
      ensures old(aSource.delivered) <= aSource.delivered && old(bSource.delivered) <= bSource.delivered
      ensures old(aSink.flushed) <= aSink.flushed && old(bSink.flushed) <= bSink.flushed
      ensures (s1.Ready? <==> aToB.Done?) && (s2.Ready? <==> bToA.Done?)
      ensures (old(aToB).Done? ==> aToB.Done?) && (old(bToA).Done? ==> bToA.Done?)
      ensures Pendings(aSource, bSink) >= old(Pendings(aSource, bSink)) + if s1.Pending? && proceed then 1 else 0
      ensures Pendings(bSource, aSink) >= old(Pendings(bSource, aSink)) + if s2.Pending? && proceed then 1 else 0
      ensures Failures(aSource, aSink, bSource, bSink) >=
              old(Failures(aSource, aSink, bSource, bSink)) + if s1.Failed? || s2.Failed? then 1 else 0
    {
      hide Ring, Relays;
      s1, aToB := Transfer(proceed, aToB, aBuf, aSource, bSink, aStart, bBefore);
      s2, bToA := Transfer(proceed, bToA, bBuf, bSource, aSink, bStart, aBefore);
    }
  }

  /** One poll of the relay: what the budget says, whether the timer has fired, and which sides can be pinged. */
  datatype Turn = Turn(proceed: bool, ping: bool, aPings: bool, bPings: bool)

  /** How many polls the budget allows. */
  function Allowed(turns: seq<Turn>): nat {
    if turns == [] then 0 else Allowed(turns[..|turns| - 1]) + if turns[|turns| - 1].proceed then 1 else 0
  }

  /**
   Why a relay has not finished: an operation failed, or each direction that is not done found one pending at every
   poll that the budget `allowed`.
   */
  twostate predicate HeldUp(a: Source, aw: Sink, b: Source, bw: Sink, allowed: nat)
    reads a, aw, b, bw
  {
    || Failures(a, aw, b, bw) > old(Failures(a, aw, b, bw))
    || (&& (bw.closed || Pendings(a, bw) >= old(Pendings(a, bw)) + allowed)
        && (aw.closed || Pendings(b, aw) >= old(Pendings(b, aw)) + allowed))
  }

  /** Everything in the sink is flushed, unless it was not before, nothing was added and no flush was asked for. */
  twostate predicate FlushedSince(needFlush: bool, w: Sink)
    reads w
  {
    w.flushed == |w.accepted| || (!needFlush && old(w.flushed) < |old(w.accepted)| && w.accepted == old(w.accepted))
  }

  /**
   `copy_bidirectional`, awaited: the relay is polled once per turn until it is done or its task is dropped. Each
   side has received a prefix of what the other sent meanwhile, and all of it, flushed, once the relay finishes. It
   does not finish only if an operation failed, or every poll the budget allowed found one of each direction pending
   that is not done.
   */
  method Relay(a: Source, aw: Sink, b: Source, bw: Sink, aNeedFlush: bool, bNeedFlush: bool, size: nat,
               turns: seq<Turn>)
    returns (finished: bool)
    requires a != b && aw != bw && size > 0
    requires aw.Valid() && !aw.closed && bw.Valid() && !bw.closed
    modifies a, aw, b, bw
    ensures old(a.delivered) <= a.delivered && old(b.delivered) <= b.delivered
    ensures bw.accepted <= old(bw.accepted) + a.delivered[|old(a.delivered)|..]
    ensures aw.accepted <= old(aw.accepted) + b.delivered[|old(b.delivered)|..]
    ensures old(aw.flushed) <= aw.flushed && old(bw.flushed) <= bw.flushed
    ensures finished ==>
              && a.ended && b.ended && aw.closed && bw.closed
              && bw.accepted == old(bw.accepted) + a.delivered[|old(a.delivered)|..]
              && aw.accepted == old(aw.accepted) + b.delivered[|old(b.delivered)|..]
              && FlushedSince(bNeedFlush, bw) && FlushedSince(aNeedFlush, aw)
    ensures Failures(a, aw, b, bw) >= old(Failures(a, aw, b, bw))
    ensures !finished ==> HeldUp(a, aw, b, bw, Allowed(turns))
  {
    var c := new Copier(a, aw, b, bw, aNeedFlush, bNeedFlush, size, size);
    finished := false;
    var status := Pending;
    var i := 0;
    while i < |turns| && status.Pending?
      invariant c.Valid() && (status.Ready? ==> c.aToB.Done? && c.bToA.Done?)
      invariant old(a.delivered) <= a.delivered && old(b.delivered) <= b.delivered
      invariant i <= |turns| && old(aw.flushed) <= aw.flushed && old(bw.flushed) <= bw.flushed
      invariant Failures(a, aw, b, bw) >= old(Failures(a, aw, b, bw))
      invariant status.Failed? ==> Failures(a, aw, b, bw) > old(Failures(a, aw, b, bw))
      invariant status.Pending? ==> c.aToB.Done? || Pendings(a, bw) >= old(Pendings(a, bw)) + Allowed(turns[..i])
      invariant status.Pending? ==> c.bToA.Done? || Pendings(b, aw) >= old(Pendings(b, aw)) + Allowed(turns[..i])
      invariant status.Ready? ==>
                  && a.ended && b.ended && aw.closed && bw.closed
                  && bw.accepted == c.bBefore + a.delivered[c.aStart..]
                  && aw.accepted == c.aBefore + b.delivered[c.bStart..]
    {
      var t := turns[i];
      status := c.Poll(t.proceed, t.ping, t.aPings, t.bPings);
      assert turns[..i + 1][..i] == turns[..i];
      i := i + 1;
    }
    assert turns[..|turns|] == turns;
    finished := status.Ready?;
  }

  /** Accepted then waiting is what was there before, then what was delivered since. */
  ghost predicate Relays(delivered: seq<byte>, start: nat, before: seq<byte>, accepted: seq<byte>, waiting: seq<byte>) {
    start <= |delivered| && accepted + waiting == before + delivered[start..]
  }

  lemma RelaysDone(delivered: seq<byte>, start: nat, before: seq<byte>, accepted: seq<byte>)
    requires Relays(delivered, start, before, accepted, [])
    ensures start <= |delivered| && accepted == before + delivered[start..]
  {
    assert accepted + [] == accepted;
  }

  lemma RelaysOn(delivered: seq<byte>, delivered': seq<byte>, start: nat, before: seq<byte>,
                 accepted: seq<byte>, waiting: seq<byte>, accepted': seq<byte>, waiting': seq<byte>)
    requires Relays(delivered, start, before, accepted, waiting)
    requires delivered <= delivered' && accepted' + waiting' == accepted + waiting + delivered'[|delivered|..]
    ensures Relays(delivered', start, before, accepted', waiting')
  {
    assert delivered'[start..] == delivered[start..] + delivered'[|delivered|..];
    Associate(before, delivered[start..], delivered'[|delivered|..]);
  }
}
