/** What a stream writes is sent in order, its end is announced at most once and last. */
module Outbound {
  import opened Bytes
  import opened Frames
  import opened Streams
  import opened Multiplexer

  /** The payloads queued for one stream id, in order. */
  function OfId(items: seq<Item>, id: u32): seq<seq<byte>> {
    if items == [] then []
    else OfId(items[..|items| - 1], id) + Mine(items[|items| - 1], id)
  }

  function Mine(item: Item, id: u32): seq<seq<byte>> {
    if item.id == id then [item.data] else []
  }

  lemma OfIdSnoc(items: seq<Item>, item: Item, id: u32)
    ensures OfId(items + [item], id) == OfId(items, id) + Mine(item, id)
  {
    assert (items + [item])[..|items|] == items;
  }

  /** The end mark, if there at all, is the last payload. */
  ghost predicate EndsOnce(payloads: seq<seq<byte>>) {
    forall j :: 0 <= j < |payloads| && payloads[j] == [] ==> j == |payloads| - 1
  }

  ghost predicate Ended(payloads: seq<seq<byte>>) {
    payloads != [] && payloads[|payloads| - 1] == []
  }

  /** No two streams ever had the same id. */
  ghost predicate FreshIds(s: State) {
    forall j, k :: 0 <= j < k < |s.insts| ==> s.insts[j].id != s.insts[k].id
  }

  ghost predicate HasStream(s: State, id: u32) {
    exists k :: 0 <= k < |s.insts| && s.insts[k].id == id
  }

  /** The account of one stream: `all` it queued, what the outgoing loop has `taken`, what it has `sent`. */
  ghost predicate Accounted(i: Inst, all: seq<seq<byte>>, taken: seq<seq<byte>>, sent: seq<seq<byte>>, stopped: bool) {
    && Flatten(all) == i.written
    && EndsOnce(all)
    && (Ended(all) ==> i.stream.closed)
    && taken <= all && sent <= taken
    && (stopped || sent == taken || (Ended(taken) && |sent| == |taken| - 1))
  }

  ghost predicate StreamOk(s: State, k: nat)
    requires WellFormed(s) && k < |s.insts|
  {
    var id := s.insts[k].id;
    Accounted(s.insts[k], OfId(s.log, id), OfId(s.log[..s.head], id), OfId(s.sent, id), s.outStopped)
  }

  ghost predicate Known(s: State, items: seq<Item>) {
    forall j :: 0 <= j < |items| ==> HasStream(s, items[j].id)
  }

  ghost predicate Inv(s: State) {
    && WellFormed(s)
    && FreshIds(s)
    && (forall k :: 0 <= k < |s.insts| ==> StreamOk(s, k))
    && Known(s, s.log) && Known(s, s.sent)
    && forall j :: 0 <= j < |s.log| ==> |s.log[j].data| <= MAX_FRAME_DATA_SIZE
  }

  // ----- one stream -----

  lemma {:induction false} OfIdPrefix(items: seq<Item>, n: nat, id: u32)
    requires n <= |items|
    ensures OfId(items[..n], id) <= OfId(items, id)
  {
    if n == |items| {
      assert items[..n] == items;
    } else {
      assert items[..|items| - 1][..n] == items[..n];
      OfIdPrefix(items[..|items| - 1], n, id);
    }
  }

  lemma {:induction false} OfIdNone(items: seq<Item>, id: u32)
    requires forall j :: 0 <= j < |items| ==> items[j].id != id
    ensures OfId(items, id) == []
  {
    if items != [] {
      OfIdNone(items[..|items| - 1], id);
    }
  }

  lemma Queued(i: Inst, all: seq<seq<byte>>, taken: seq<seq<byte>>, sent: seq<seq<byte>>, stopped: bool,
               data: seq<byte>, i': Inst)
    requires Accounted(i, all, taken, sent, stopped) && !i.stream.closed
    requires i'.written == i.written + data && (data == [] ==> i'.stream.closed)
    ensures Accounted(i', all + [data], taken, sent, stopped)
  {
    FlattenSnoc(all, data);
  }

  /** The outgoing loop takes the next payload and sends it, or stops, or fails to send an end mark. */
  lemma Pumped(i: Inst, all: seq<seq<byte>>, taken: seq<seq<byte>>, sent: seq<seq<byte>>,
               data: seq<byte>, ok: bool, stopped: bool)
    requires Accounted(i, all, taken, sent, false) && taken + [data] <= all
    requires ok || stopped || data == []
    ensures Accounted(i, all, taken + [data], if ok then sent + [data] else sent, stopped)
  {
    assert taken != [] ==> taken[|taken| - 1] == all[|taken| - 1];
  }

  // ----- one step -----

  /** Steps that leave the queue and what the streams wrote alone. */
  ghost predicate Quiet(s: State, r: State) {
    && Extends(s, r) && |r.insts| == |s.insts|
    && r.log == s.log && r.head == s.head && r.sent == s.sent && r.outStopped == s.outStopped
    && forall k :: 0 <= k < |s.insts| ==>
         r.insts[k].written == s.insts[k].written && (s.insts[k].stream.closed ==> r.insts[k].stream.closed)
  }

  lemma Unrelated(s: State, r: State)
    requires Inv(s) && WellFormed(r) && Quiet(s, r)
    ensures Inv(r)
  {
    hide WellFormed, Flatten, OfId;
    forall k | 0 <= k < |r.insts|
      ensures StreamOk(r, k)
    {
      assert StreamOk(s, k);
    }
    StillKnown(s, r, s.log);
    StillKnown(s, r, s.sent);
  }

  lemma StillKnown(s: State, r: State, items: seq<Item>)
    requires Known(s, items) && Extends(s, r)
    ensures Known(r, items)
  {
    forall j | 0 <= j < |items|
      ensures HasStream(r, items[j].id)
    {
      var k :| 0 <= k < |s.insts| && s.insts[k].id == items[j].id;
      assert r.insts[k].id == items[j].id;
    }
  }

  lemma OpenKeeps(s: State, id: u32)
    requires Inv(s) && id !in s.streams && FreshIds(Open(s, id))
    ensures Inv(Open(s, id))
  {
    hide Flatten, OfId;
    var r := Open(s, id);
    StillKnown(s, r, s.log);
    StillKnown(s, r, s.sent);
    forall k | 0 <= k < |r.insts|
      ensures StreamOk(r, k)
    {
      if k < |s.insts| {
        assert StreamOk(s, k);
      } else {
        NoneYet(s, r, s.log);
        NoneYet(s, r, s.log[..s.head]);
        NoneYet(s, r, s.sent);
        FlattenNothing<byte>();
      }
    }
  }

  lemma NoneYet(s: State, r: State, items: seq<Item>)
    requires Known(s, items) && Extends(s, r) && FreshIds(r) && |r.insts| == |s.insts| + 1
    ensures OfId(items, r.insts[|s.insts|].id) == []
  {
    forall j | 0 <= j < |items|
      ensures items[j].id != r.insts[|s.insts|].id
    {
      assert HasStream(s, items[j].id);
    }
    OfIdNone(items, r.insts[|s.insts|].id);
  }

  /** What the stream's own rules guarantee about anything it queues. */
  ghost predicate Orderly(before: StreamState, step: WriteStep) {
    && Consistent(step.state)
    && (before.closed ==> step.state.closed)
    && (step.send.Some? ==>
          && !before.closed
          && |step.send.value| <= MAX_FRAME_DATA_SIZE
          && (step.send.value == [] ==> step.state.closed))
  }

  lemma EnqueueKeeps(s: State, k: nat, step: WriteStep, alive: bool)
    requires Inv(s) && k < |s.insts| && Orderly(s.insts[k].stream, step)
    ensures Inv(Enqueue(s, k, step, alive))
  {
    hide WellFormed, OfId, Flatten;
    InvIsWellFormed(s);
    var r := Enqueue(s, k, step, alive);
    if step.send.None? {
      Unrelated(s, r);
    } else {
      StillKnown(s, r, s.log);
      StillKnown(s, r, s.sent);
      assert r.insts[k].id == s.insts[k].id;
      forall j | 0 <= j < |r.insts|
        ensures StreamOk(r, j)
      {
        EnqueuedStreamOk(s, k, step, alive, j);
      }
    }
  }

  lemma EnqueuedStreamOk(s: State, k: nat, step: WriteStep, alive: bool, j: nat)
    requires Inv(s) && k < |s.insts| && j < |s.insts| && Orderly(s.insts[k].stream, step) && step.send.Some?
    ensures StreamOk(Enqueue(s, k, step, alive), j)
  {
    hide WellFormed, OfId, Flatten, Accounted;
    InvIsWellFormed(s);
    var r := Enqueue(s, k, step, alive);
    var id, data := s.insts[j].id, step.send.value;
    assert StreamOk(s, j);
    OfIdSnoc(s.log, Item(s.insts[k].id, data), id);
    assert r.log[..r.head] == s.log[..s.head];
    if j == k {
      Queued(s.insts[k], OfId(s.log, id), OfId(s.log[..s.head], id), OfId(s.sent, id), s.outStopped, data, r.insts[k]);
    } else {
      assert s.insts[k].id != id;
      assert OfId(s.log, id) + [] == OfId(s.log, id);
    }
  }

  lemma PumpKeeps(s: State, ok: bool)
    requires Inv(s)
    ensures Inv(PumpOne(s, ok))
  {
    hide WellFormed, OfId, Flatten, PumpOne;
    InvIsWellFormed(s);
    var r := PumpOne(s, ok);
    PumpForm(s, ok);
    if r.head == s.head {
      PumpRests(s, ok);
      Unrelated(s, r);
    } else {
      PumpTakes(s, ok);
      forall k | 0 <= k < |r.insts|
        ensures StreamOk(r, k)
      {
        PumpedStreamOk(s, ok, k);
      }
    }
  }

  lemma PumpedStreamOk(s: State, ok: bool, k: nat)
    requires Inv(s) && PumpOne(s, ok).head != s.head && k < |s.insts|
    ensures StreamOk(PumpOne(s, ok), k)
  {
    hide WellFormed, OfId, Flatten, PumpOne, Accounted;
    InvIsWellFormed(s);
    PumpTakes(s, ok);
    var r := PumpOne(s, ok);
    var id, item := s.insts[k].id, s.log[s.head];
    assert StreamOk(s, k);
    var all, taken, sent := OfId(s.log, id), OfId(s.log[..s.head], id), OfId(s.sent, id);
    assert s.log[..s.head + 1] == s.log[..s.head] + [item];
    OfIdSnoc(s.log[..s.head], item, id);
    OfIdSnoc(s.sent, item, id);
    OfIdPrefix(s.log, s.head + 1, id);
    if item.id == id {
      Pumped(s.insts[k], all, taken, sent, item.data, r.sent != s.sent, r.outStopped);
    } else {
      assert taken + [] == taken && sent + [] == sent;
      StaysAccounted(s.insts[k], all, taken, sent, r.outStopped);
    }
  }

  lemma StaysAccounted(i: Inst, all: seq<seq<byte>>, taken: seq<seq<byte>>, sent: seq<seq<byte>>, stopped: bool)
    requires Accounted(i, all, taken, sent, false)
    ensures Accounted(i, all, taken, sent, stopped)
  {
  }

  lemma PumpRests(s: State, ok: bool)
    requires WellFormed(s) && PumpOne(s, ok).head == s.head
    ensures PumpOne(s, ok).sent == s.sent && PumpOne(s, ok).outStopped == s.outStopped
  {
    hide Consistent, Extends;
  }

  /** When the outgoing loop is done with an item: it was sent, or the loop stops, or it was an end mark. */
  lemma PumpTakes(s: State, ok: bool)
    requires WellFormed(s) && PumpOne(s, ok).head != s.head
    ensures var r := PumpOne(s, ok);
            && s.head < |s.log| && !s.outStopped
            && r.head == s.head + 1 && r.log == s.log && r.insts == s.insts
            && (r.sent == s.sent + [s.log[s.head]] || (r.sent == s.sent && (r.outStopped || s.log[s.head].data == [])))
  {
    hide Consistent, Extends;
  }

  lemma InvIsWellFormed(s: State)
    requires Inv(s)
    ensures WellFormed(s)
  {
  }

  /** The writers of the repository never pass an empty slice. */
  ghost predicate Sane(a: Action) {
    a.Write? ==> a.buf != []
  }

  lemma StepKeeps(s: State, a: Action)
    requires Inv(s) && Sane(a) && FreshIds(Step(s, a))
    ensures Inv(Step(s, a))
  {
    hide Inv, ReadOne, DeliverHeld, Enqueue, PumpOne, Handle;
    InvIsWellFormed(s);
    match a
    case Receive(f, replied) => if s.hand.Idle? && !s.recvStopped { HandleKeeps(s, f, replied); }
    case Deliver => DeliverUnrelated(s);
    case Read(k, room) => if Usable(s, k) { ReadUnrelated(s, k, room); }
    case Write(k, buf, gone) => if Usable(s, k) {
        EnqueueKeeps(s, k, WriteTo(s.insts[k].stream, s.Closed(), Full(s), gone, buf), true);
      }
    case ShutDown(k, gone) => if Usable(s, k) {
        EnqueueKeeps(s, k, Shutdown(s.insts[k].stream, s.Closed(), Full(s), gone), true);
      }
    case DropStream(k, gone) => if Usable(s, k) {
        EnqueueKeeps(s, k, Drop(s.insts[k].stream, Full(s), gone), false);
      }
    case Pump(ok) => PumpKeeps(s, ok);
    case Close => Unrelated(s, Step(s, a));
    case Clear => Unrelated(s, Step(s, a));
  }

  lemma DeliverUnrelated(s: State)
    requires Inv(s)
    ensures Inv(DeliverHeld(s))
  {
    hide Inv, WellFormed;
    InvIsWellFormed(s);
    Unrelated(s, DeliverHeld(s));
  }

  lemma ReadUnrelated(s: State, k: nat, room: nat)
    requires Inv(s) && k < |s.insts|
    ensures Inv(ReadOne(s, k, room))
  {
    hide Inv;
    InvIsWellFormed(s);
    Unrelated(s, ReadOne(s, k, room));
  }

  lemma HandleKeeps(s: State, f: Frame, replied: bool)
    requires Inv(s) && FreshIds(Handle(s, f, replied))
    ensures Inv(Handle(s, f, replied))
  {
    hide Inv, Open, Take, Finish;
    InvIsWellFormed(s);
    if !Acts(s, f) {
      HandleFlags(s, f, replied);
      Unrelated(s, Handle(s, f, replied));
    } else if f.cmd.Syn? {
      OpenKeeps(s, f.streamId);
    } else if f.cmd.Psh? {
      TakeQuiet(s, s.streams[f.streamId], f.data);
      Unrelated(s, Handle(s, f, replied));
    } else {
      FinishQuiet(s, f.streamId);
      Unrelated(s, Handle(s, f, replied));
    }
  }

  lemma TakeQuiet(s: State, k: nat, data: seq<byte>)
    requires WellFormed(s) && k < |s.insts|
    ensures Quiet(s, Take(s, k, data))
  {
  }

  lemma FinishQuiet(s: State, id: u32)
    requires WellFormed(s) && id in s.streams
    ensures Quiet(s, Finish(s, id))
  {
  }

  lemma {:induction false} RunKeeps(actions: seq<Action>)
    requires FreshIds(Run(actions)) && forall j :: 0 <= j < |actions| ==> Sane(actions[j])
    ensures Inv(Run(actions))
  {
    if actions != [] {
      var s, a := Run(actions[..|actions| - 1]), actions[|actions| - 1];
      assert Extends(s, Step(s, a));
      RunKeeps(actions[..|actions| - 1]);
      StepKeeps(s, a);
    }
  }

  // ----- what is on the wire -----

  /** The frame an item is sent as. */
  function FrameOf(item: Item): Frame {
    if item.data == [] then Frame(Fin, item.id, []) else Frame(Psh, item.id, item.data)
  }

  lemma {:induction false} FlattenPrefix(a: seq<seq<byte>>, b: seq<seq<byte>>)
    requires a <= b
    ensures Flatten(a) <= Flatten(b)
  {
    assert b == a + b[|a|..];
    FlattenAppend(a, b[|a|..]);
  }

  /**
   In every run with fresh stream ids and no empty write, for every stream: the payloads sent for it are an
   in-order prefix of the bytes its writes accepted; at most one end mark is ever queued for it, nothing after that,
   and only once the stream has closed; every frame's length fits.
   */
  lemma SentInOrder(actions: seq<Action>, k: nat)
    requires FreshIds(Run(actions)) && forall j :: 0 <= j < |actions| ==> Sane(actions[j])
    requires k < |Run(actions).insts|
    ensures var s := Run(actions);
            var sent := OfId(s.sent, s.insts[k].id);
            && Flatten(sent) <= s.insts[k].written
            && EndsOnce(sent) && EndsOnce(OfId(s.log, s.insts[k].id))
            && (Ended(OfId(s.log, s.insts[k].id)) ==> s.insts[k].stream.closed)
            && (Ended(sent) ==> s.insts[k].stream.closed && Flatten(sent) == s.insts[k].written)
            && forall j :: 0 <= j < |s.log| ==> Fits(FrameOf(s.log[j]))
  {
    hide OfId, Run;
    RunKeeps(actions);
    var s := Run(actions);
    assert StreamOk(s, k);
    var all, sent := OfId(s.log, s.insts[k].id), OfId(s.sent, s.insts[k].id);
    FlattenPrefix(sent, all);
    if Ended(sent) {
      assert all[|sent| - 1] == [];
      assert sent == all;
    }
  }

  /** Why the condition on writes is there: an empty write is queued like the end of a stream still open. */
  lemma EmptyWriteLooksLikeTheEnd(s: StreamState)
    requires !s.closed && !s.shuttingDown
    ensures WriteTo(s, false, false, false, []).send == Shutdown(s, false, false, false).send
    ensures !WriteTo(s, false, false, false, []).state.closed
    ensures !Orderly(s, WriteTo(s, false, false, false, []))
  {
  }
}
