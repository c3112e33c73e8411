/** Every byte dispatched to a stream reaches its reader once and in order, and its end is not announced early. */
module Inbound {
  import opened Bytes
  import opened Frames
  import opened Streams
  import opened Multiplexer

  /** What the receive loop still holds for stream `k`. */
  function HandFor(s: State, k: nat): Option<seq<byte>> {
    if s.hand.Holding? && s.hand.k == k then Some(s.hand.data) else None
  }

  function BytesOf(held: Option<seq<byte>>): seq<byte> {
    if held.Some? then held.value else []
  }

  /** The account of one stream, given what is held for it and whether the map still lists it. */
  ghost predicate Balanced(i: Inst, held: Option<seq<byte>>, listed: bool) {
    && Consistent(i.stream)
    && (i.alive ==> i.returned + (Unread(i.stream) + Flatten(i.queue) + BytesOf(held)) == i.dispatched)
    && i.returned <= i.dispatched
    && |i.queue| <= STREAM_CHANNEL_BUFFER
    && MarkIsLast(i.queue, listed || held.Some?)
    && (i.stream.eof ==> Unread(i.stream) == [] && i.queue == [] && !listed && held.None?)
    && (held == Some([]) ==> !listed)
  }

  /** An end mark can only be the last thing in a channel nobody can send to any more. */
  ghost predicate MarkIsLast(queue: seq<seq<byte>>, connected: bool) {
    forall j :: 0 <= j < |queue| && queue[j] == [] ==> j == |queue| - 1 && !connected
  }

  ghost predicate StreamOk(s: State, k: nat)
    requires k < |s.insts|
  {
    Balanced(s.insts[k], HandFor(s, k), InMap(s, k))
  }

  ghost predicate Inv(s: State) {
    WellFormed(s) && forall k :: 0 <= k < |s.insts| ==> StreamOk(s, k)
  }

  // ----- one stream -----

  lemma Unlisted(i: Inst, held: Option<seq<byte>>, listed: bool)
    requires Balanced(i, held, listed)
    ensures Balanced(i, held, false)
  {
  }

  lemma Taken(i: Inst, data: seq<byte>)
    requires Balanced(i, None, true) && data != []
    ensures Balanced(i.(dispatched := i.dispatched + data), Some(data), true)
  {
    assert i.returned + (Unread(i.stream) + Flatten(i.queue) + data) ==
           i.returned + (Unread(i.stream) + Flatten(i.queue) + []) + data;
  }

  lemma Delivered(i: Inst, data: seq<byte>, listed: bool)
    requires Balanced(i, Some(data), listed) && |i.queue| < STREAM_CHANNEL_BUFFER
    ensures Balanced(i.(queue := i.queue + [data]), None, listed)
  {
    FlattenSnoc(i.queue, data);
    assert Unread(i.stream) + Flatten(i.queue) + data == Unread(i.stream) + (Flatten(i.queue) + data) + [];
  }

  lemma ReadOut(i: Inst, held: Option<seq<byte>>, listed: bool, room: nat)
    requires Balanced(i, held, listed) && i.alive
    ensures var step := ReadFrom(i.stream, i.queue, listed || held.Some?, room);
            var bytes := if step.result.Data? then step.result.bytes else [];
            Balanced(i.(stream := step.state, queue := step.queue, returned := i.returned + bytes), held, listed)
  {
    var step := ReadFrom(i.stream, i.queue, listed || held.Some?, room);
    var bytes := if step.result.Data? then step.result.bytes else [];
    ReadConserves(i.stream, i.queue, listed || held.Some?, room);
    ReadRegroup(i.returned, bytes, Unread(step.state) + Flatten(step.queue),
                Unread(i.stream) + Flatten(i.queue), BytesOf(held));
  }

  lemma ReadRegroup(returned: seq<byte>, bytes: seq<byte>, after: seq<byte>, before: seq<byte>, hand: seq<byte>)
    requires bytes + after == before
    ensures returned + bytes + (after + hand) == returned + (before + hand)
  {
    assert bytes + (after + hand) == before + hand;
  }

  // ----- one step -----

  lemma TakeKeeps(s: State, k: nat, data: seq<byte>)
    requires Inv(s) && s.hand.Idle? && k < |s.insts| && InMap(s, k) && data != []
    ensures Inv(Take(s, k, data))
  {
    hide Balanced, WellFormed;
    var r := Take(s, k, data);
    forall j | 0 <= j < |r.insts|
      ensures StreamOk(r, j)
    {
      assert StreamOk(s, j);
      if j == k {
        Taken(s.insts[k], data);
      }
    }
  }

  lemma OpenKeeps(s: State, id: u32)
    requires Inv(s) && id !in s.streams
    ensures Inv(Open(s, id))
  {
    hide Balanced;
    var r := Open(s, id);
    Opened(id);
    forall j | 0 <= j < |r.insts|
      ensures StreamOk(r, j)
    {
      if j < |s.insts| {
        assert StreamOk(s, j);
        assert InMap(r, j) == InMap(s, j);
      }
    }
  }

  lemma FinishKeeps(s: State, id: u32)
    requires Inv(s) && s.hand.Idle? && id in s.streams
    ensures Inv(Finish(s, id))
  {
    hide Balanced;
    var r := Finish(s, id);
    var k := s.streams[id];
    forall j | 0 <= j < |r.insts|
      ensures StreamOk(r, j)
    {
      assert StreamOk(s, j);
      if j == k {
        Finished(s.insts[k]);
      } else {
        assert InMap(r, j) == InMap(s, j);
      }
    }
  }

  lemma FlagsKeep(s: State, r: State)
    requires Inv(s) && WellFormed(r)
    requires r.insts == s.insts && r.hand == s.hand && r.streams == s.streams
    ensures Inv(r)
  {
    hide Balanced, WellFormed;
    forall j | 0 <= j < |r.insts|
      ensures StreamOk(r, j)
    {
      assert StreamOk(s, j);
    }
  }

  lemma HandleKeeps(s: State, f: Frame, replied: bool)
    requires Inv(s) && s.hand.Idle?
    ensures Inv(Handle(s, f, replied))
  {
    hide Inv, Take, Open, Finish;
    InvIsWellFormed(s);
    if !Acts(s, f) {
      HandleFlags(s, f, replied);
      FlagsKeep(s, Handle(s, f, replied));
    } else if f.cmd.Psh? {
      TakeKeeps(s, s.streams[f.streamId], f.data);
    } else if f.cmd.Syn? {
      OpenKeeps(s, f.streamId);
    } else {
      FinishKeeps(s, f.streamId);
    }
  }

  lemma Opened(id: u32)
    ensures Balanced(Inst(id, FRESH, [], true, [], [], []), None, true)
  {
  }

  lemma Finished(i: Inst)
    requires Balanced(i, None, true)
    ensures Balanced(i, Some([]), false)
  {
  }

  lemma DeliverKeeps(s: State)
    requires Inv(s)
    ensures Inv(DeliverHeld(s))
  {
    hide Balanced, WellFormed, DeliverHeld;
    InvIsWellFormed(s);
    DeliverForm(s);
    var r := DeliverHeld(s);
    forall k | 0 <= k < |r.insts|
      ensures StreamOk(r, k)
    {
      assert StreamOk(s, k);
      if s.hand.Holding? && s.hand.k == k {
        if !s.insts[k].alive {
          Discarded(s.insts[k], s.hand.data, InMap(s, k));
        } else if |s.insts[k].queue| < STREAM_CHANNEL_BUFFER {
          Delivered(s.insts[k], s.hand.data, InMap(s, k));
        }
      }
    }
  }

  lemma Discarded(i: Inst, data: seq<byte>, listed: bool)
    requires Balanced(i, Some(data), listed) && !i.alive
    ensures Balanced(i, None, listed)
  {
  }

  /** A step that changes one stream, and neither the map nor the hand. */
  lemma OneChanged(s: State, r: State, k: nat)
    requires Inv(s) && WellFormed(r) && k < |s.insts|
    requires |r.insts| == |s.insts| && r.insts == s.insts[k := r.insts[k]] && r.hand == s.hand && r.streams == s.streams
    requires r.insts[k].id == s.insts[k].id && Balanced(r.insts[k], HandFor(s, k), InMap(s, k))
    ensures Inv(r)
  {
    hide Balanced, WellFormed;
    forall j | 0 <= j < |r.insts|
      ensures StreamOk(r, j)
    {
      assert StreamOk(s, j);
    }
  }

  lemma ReadKeeps(s: State, k: nat, room: nat)
    requires Inv(s) && k < |s.insts| && s.insts[k].alive
    ensures Inv(ReadOne(s, k, room))
  {
    hide Balanced, ReadFrom, WellFormed;
    assert StreamOk(s, k);
    ReadOut(s.insts[k], HandFor(s, k), InMap(s, k), room);
    InvIsWellFormed(s);
    OneChanged(s, ReadOne(s, k, room), k);
  }

  lemma EnqueueKeeps(s: State, k: nat, step: WriteStep, alive: bool)
    requires Inv(s) && k < |s.insts| && s.insts[k].alive
    requires SameReads(s.insts[k].stream, step.state) && Consistent(step.state)
    ensures Inv(Enqueue(s, k, step, alive))
  {
    hide Balanced, WellFormed, Enqueue;
    assert StreamOk(s, k);
    InvIsWellFormed(s);
    var r := Enqueue(s, k, step, alive);
    EnqueueForm(s, k, step, alive);
    WroteOrClosed(s.insts[k], HandFor(s, k), InMap(s, k), r.insts[k]);
    OneChanged(s, r, k);
  }

  ghost predicate SameReads(s: StreamState, t: StreamState) {
    t.(closed := s.closed, shuttingDown := s.shuttingDown) == s
  }

  lemma WroteOrClosed(i: Inst, held: Option<seq<byte>>, listed: bool, i': Inst)
    requires Balanced(i, held, listed) && i.alive
    requires SameReads(i.stream, i'.stream)
    requires i' == i.(stream := i'.stream, alive := i'.alive, written := i'.written)
    ensures Balanced(i', held, listed)
  {
  }

  /** Steps that only take streams off the map. */
  lemma UnlistingKeeps(s: State, r: State)
    requires Inv(s) && WellFormed(r)
    requires r.insts == s.insts && r.hand == s.hand
    requires forall id :: id in r.streams ==> id in s.streams && r.streams[id] == s.streams[id]
    ensures Inv(r)
  {
    hide Balanced;
    forall k | 0 <= k < |r.insts|
      ensures StreamOk(r, k)
    {
      assert StreamOk(s, k);
      Unlisted(s.insts[k], HandFor(s, k), InMap(s, k));
    }
  }

  lemma WriteKeeps(s: State, k: nat, buf: seq<byte>, gone: bool)
    requires Inv(s) && k < |s.insts| && s.insts[k].alive
    ensures Inv(Enqueue(s, k, WriteTo(s.insts[k].stream, s.Closed(), Full(s), gone, buf), true))
    ensures Inv(Enqueue(s, k, Shutdown(s.insts[k].stream, s.Closed(), Full(s), gone), true))
    ensures Inv(Enqueue(s, k, Drop(s.insts[k].stream, Full(s), gone), false))
  {
    hide Inv, Enqueue;
    InvIsWellFormed(s);
    EnqueueKeeps(s, k, WriteTo(s.insts[k].stream, s.Closed(), Full(s), gone, buf), true);
    EnqueueKeeps(s, k, Shutdown(s.insts[k].stream, s.Closed(), Full(s), gone), true);
    EnqueueKeeps(s, k, Drop(s.insts[k].stream, Full(s), gone), false);
  }

  /** No step of any task breaks the account of any stream. */
  lemma StepKeeps(s: State, a: Action)
    requires Inv(s)
    ensures Inv(Step(s, a))
  {
    hide Inv, Handle, DeliverHeld, ReadOne, Enqueue, PumpOne, WriteTo, Shutdown, Drop;
    InvIsWellFormed(s);
    match a
    case Receive(f, replied) => if s.hand.Idle? && !s.recvStopped { HandleKeeps(s, f, replied); }
    case Deliver => DeliverKeeps(s);
    case Read(k, room) => if Usable(s, k) { ReadKeeps(s, k, room); }
    case Write(k, buf, gone) => if Usable(s, k) { WriteKeeps(s, k, buf, gone); }
    case ShutDown(k, gone) => if Usable(s, k) { WriteKeeps(s, k, [], gone); }
    case DropStream(k, gone) => if Usable(s, k) { WriteKeeps(s, k, [], gone); }
    case Pump(ok) => PumpKeeps(s, ok);
    case Close => CloseKeeps(s);
    case Clear => ClearKeeps(s);
  }

  lemma PumpKeeps(s: State, ok: bool)
    requires Inv(s)
    ensures Inv(PumpOne(s, ok))
  {
    hide Inv, PumpOne, WellFormed;
    InvIsWellFormed(s);
    PumpForm(s, ok);
    UnlistingKeeps(s, PumpOne(s, ok));
  }

  lemma CloseKeeps(s: State)
    requires Inv(s)
    ensures Inv(s.(closing := Flagged))
  {
    hide Inv;
    InvIsWellFormed(s);
    UnlistingKeeps(s, s.(closing := Flagged));
  }

  lemma ClearKeeps(s: State)
    requires Inv(s)
    ensures Inv(s.(closing := Cleared, streams := map[]))
  {
    hide Inv;
    InvIsWellFormed(s);
    UnlistingKeeps(s, s.(closing := Cleared, streams := map[]));
  }

  lemma InvIsWellFormed(s: State)
    requires Inv(s)
    ensures WellFormed(s)
  {
  }

  lemma {:induction false} RunKeeps(actions: seq<Action>)
    ensures Inv(Run(actions))
  {
    if actions != [] {
      RunKeeps(actions[..|actions| - 1]);
      StepKeeps(Run(actions[..|actions| - 1]), actions[|actions| - 1]);
    }
  }

  /**
   In every run, for every stream still in use: what its reads returned, then its partial read buffer,
   then its queued payloads, then the payload the receive loop is waiting to queue, is exactly the payload
   of the PSH frames taken for it, in order.
   */
  lemma BytesConserved(actions: seq<Action>, k: nat)
    ensures var s := Run(actions);
            k < |s.insts| && s.insts[k].alive ==>
              var i := s.insts[k];
              i.returned + (Unread(i.stream) + Flatten(i.queue) + BytesOf(HandFor(s, k))) == i.dispatched
  {
    RunKeeps(actions);
    if k < |Run(actions).insts| {
      assert StreamOk(Run(actions), k);
    }
  }

  /**
   In every run, a read with room that returns nothing means the end: all dispatched payload has been
   returned, and no sender is left, so a FIN arrived or the session let go of the stream.
   */
  lemma ZeroReadIsTheEnd(actions: seq<Action>, k: nat, room: nat)
    requires k < |Run(actions).insts| && Run(actions).insts[k].alive && room > 0
    ensures var s := Run(actions);
            var i := s.insts[k];
            ReadFrom(i.stream, i.queue, Connected(s, k), room).result == Data([]) ==>
              i.returned == i.dispatched && !Connected(s, k)
  {
    RunKeeps(actions);
    var s := Run(actions);
    assert StreamOk(s, k);
    var i := s.insts[k];
    var step := ReadFrom(i.stream, i.queue, Connected(s, k), room);
    if step.result == Data([]) && i.queue != [] {
      assert i.queue[0] == [];
      FlattenFirst(i.queue);
      assert i.queue[1..] == [];
    }
  }

  /** Once the end of a stream has been read, no step dispatches anything more to it or reconnects it. */
  lemma NothingAfterTheEnd(actions: seq<Action>, a: Action, k: nat)
    requires k < |Run(actions).insts| && Run(actions).insts[k].stream.eof
    ensures Run(actions + [a]).insts[k].dispatched == Run(actions).insts[k].dispatched
    ensures !Connected(Run(actions + [a]), k)
  {
    var s := Run(actions);
    RunKeeps(actions);
    RunKeeps(actions + [a]);
    assert StreamOk(s, k);
    assert (actions + [a])[..|actions|] == actions;
    StaysDisconnected(s, a, k);
  }

  lemma StaysDisconnected(s: State, a: Action, k: nat)
    requires WellFormed(s) && k < |s.insts| && !Connected(s, k)
    ensures !Connected(Step(s, a), k)
    ensures Step(s, a).insts[k].dispatched == s.insts[k].dispatched
  {
    hide Handle, WellFormed, Connected;
    if a.Receive? && s.hand.Idle? && !s.recvStopped {
      HandleElsewhere(s, a.f, a.replied, k);
    } else {
      StepShrinks(s, a, k);
      ShrunkStaysDisconnected(s, Step(s, a), k);
    }
  }

  ghost predicate Shrunk(s: State, r: State, k: nat)
    requires k < |s.insts|
  {
    && k < |r.insts| && r.insts[k].id == s.insts[k].id && r.insts[k].dispatched == s.insts[k].dispatched
    && (r.hand == s.hand || r.hand.Idle?)
    && forall id :: id in r.streams ==> id in s.streams && r.streams[id] == s.streams[id]
  }

  lemma StepShrinks(s: State, a: Action, k: nat)
    requires WellFormed(s) && k < |s.insts|
    requires a.Receive? ==> s.hand.Holding? || s.recvStopped
    ensures Shrunk(s, Step(s, a), k)
  {
    hide Handle, DeliverHeld, ReadOne, Enqueue, PumpOne;
    DeliverShrinks(s, k);
    match a
    case Read(j, room) => if Usable(s, j) { ReadShrinks(s, j, room, k); }
    case Write(j, buf, gone) => if Usable(s, j) {
        EnqueueShrinks(s, j, WriteTo(s.insts[j].stream, s.Closed(), Full(s), gone, buf), true, k);
      }
    case ShutDown(j, gone) => if Usable(s, j) {
        EnqueueShrinks(s, j, Shutdown(s.insts[j].stream, s.Closed(), Full(s), gone), true, k);
      }
    case DropStream(j, gone) => if Usable(s, j) {
        EnqueueShrinks(s, j, Drop(s.insts[j].stream, Full(s), gone), false, k);
      }
    case Pump(ok) => PumpShrinks(s, ok, k);
    case _ =>
  }

  lemma DeliverShrinks(s: State, k: nat)
    requires WellFormed(s) && k < |s.insts|
    ensures Shrunk(s, DeliverHeld(s), k)
  {
    hide WellFormed, DeliverHeld;
    DeliverForm(s);
  }

  lemma ReadShrinks(s: State, j: nat, room: nat, k: nat)
    requires WellFormed(s) && k < |s.insts| && j < |s.insts|
    ensures Shrunk(s, ReadOne(s, j, room), k)
  {
    hide ReadFrom, Extends, Consistent;
  }

  lemma EnqueueShrinks(s: State, j: nat, step: WriteStep, alive: bool, k: nat)
    requires WellFormed(s) && k < |s.insts| && j < |s.insts| && Consistent(step.state)
    ensures Shrunk(s, Enqueue(s, j, step, alive), k)
  {
    hide WellFormed, Enqueue;
    EnqueueForm(s, j, step, alive);
  }

  lemma PumpShrinks(s: State, ok: bool, k: nat)
    requires WellFormed(s) && k < |s.insts|
    ensures Shrunk(s, PumpOne(s, ok), k)
  {
    hide PumpOne, WellFormed;
    PumpForm(s, ok);
  }

  lemma ShrunkStaysDisconnected(s: State, r: State, k: nat)
    requires k < |s.insts| && Shrunk(s, r, k) && !Connected(s, k)
    ensures !Connected(r, k)
  {
  }

  lemma HandleElsewhere(s: State, f: Frame, replied: bool, k: nat)
    requires WellFormed(s) && k < |s.insts| && !Connected(s, k)
    ensures !Connected(Handle(s, f, replied), k)
    ensures Handle(s, f, replied).insts[k].dispatched == s.insts[k].dispatched
  {
    hide Take, Open, Finish;
    if !Acts(s, f) {
      HandleFlags(s, f, replied);
    } else if f.cmd.Psh? {
      TakeElsewhere(s, s.streams[f.streamId], f.data, k);
    } else {
      OpenOrFinishElsewhere(s, f.streamId, k);
    }
  }

  lemma TakeElsewhere(s: State, j: nat, data: seq<byte>, k: nat)
    requires WellFormed(s) && k < |s.insts| && j < |s.insts| && !Connected(s, k) && InMap(s, j)
    ensures !Connected(Take(s, j, data), k) && Take(s, j, data).insts[k] == s.insts[k]
  {
    hide WellFormed;
  }

  lemma OpenOrFinishElsewhere(s: State, id: u32, k: nat)
    requires WellFormed(s) && k < |s.insts| && !Connected(s, k)
    ensures id !in s.streams ==> !Connected(Open(s, id), k) && Open(s, id).insts[k] == s.insts[k]
    ensures id in s.streams ==> !Connected(Finish(s, id), k) && Finish(s, id).insts[k] == s.insts[k]
  {
  }
}
