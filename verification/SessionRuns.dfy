/**
 The session's halves put together: the histories the step machine keeps, told by the frames the receive loop handed
 over and by the frames on the wire.
 */
module SessionRuns {
  import opened Bytes
  import opened Frames
  import opened Streams
  import opened Multiplexer
  import Inbound
  import Outbound
  import ReceiveLoop
  import opened Invisible
  import opened Wire
  import SessionWriter

  // ----- the frames handed over -----

  /** The receive loop hands over its next frame in this step. */
  predicate Takes(s: State, a: Action) {
    a.Receive? && s.hand.Idle? && !s.recvStopped
  }

  /** The frames handed over in a run, in order. */
  function Handled(actions: seq<Action>): seq<Frame> {
    if actions == [] then [] else
    var n := |actions| - 1;
    Handled(actions[..n]) + if Takes(Run(actions[..n]), actions[n]) then [actions[n].f] else []
  }

  /** Whether the reply to each of them went out, for those that call for one. */
  function Replies(actions: seq<Action>): (r: seq<bool>)
    ensures |r| == |Handled(actions)|
  {
    if actions == [] then [] else
    var n := |actions| - 1;
    Replies(actions[..n]) + if Takes(Run(actions[..n]), actions[n]) then [actions[n].replied] else []
  }

  // ----- what a stream is given -----

  /** The frame is a PSH for stream `k`, which the session still lists. */
  predicate IsFor(s: State, f: Frame, k: nat) {
    k < |s.insts| && f.cmd.Psh? && f.streamId == s.insts[k].id && InMap(s, k)
  }

  /** The payload of the PSH frames with the stream's id that were handed over while it was listed. */
  function Payload(actions: seq<Action>, k: nat): seq<byte> {
    if actions == [] then [] else
    var n := |actions| - 1;
    var s, a := Run(actions[..n]), actions[n];
    Payload(actions[..n], k) + if Takes(s, a) && IsFor(s, a.f, k) then a.f.data else []
  }

  /** What handing over a frame comes to. */
  lemma HandleCases(s: State, f: Frame, replied: bool)
    requires WellFormed(s)
    ensures var r := Handle(s, f, replied);
            if !Acts(s, f) then r.insts == s.insts && r.streams == s.streams
            else if f.cmd.Psh? then r == Take(s, s.streams[f.streamId], f.data)
            else if f.cmd.Syn? then r == Open(s, f.streamId)
            else r == Finish(s, f.streamId)
  {
    hide WellFormed, Take, Open, Finish;
    if !Acts(s, f) {
      HandleFlags(s, f, replied);
    }
  }

  lemma HandleUnpumped(s: State, f: Frame, replied: bool)
    requires WellFormed(s)
    ensures Unpumped(s, Handle(s, f, replied))
  {
    hide WellFormed, Take, Open, Finish;
    if !Acts(s, f) {
      HandleFlags(s, f, replied);
    } else {
      ActsQuietly(s, f);
    }
  }

  lemma HandleDispatches(s: State, f: Frame, replied: bool, k: nat)
    requires WellFormed(s)
    ensures var r := Handle(s, f, replied);
            && |s.insts| <= |r.insts| <= |s.insts| + 1
            && (|r.insts| > |s.insts| ==> r.insts[|s.insts|].dispatched == r.insts[|s.insts|].written == [])
            && (k < |s.insts| ==>
                  && r.insts[k].dispatched == s.insts[k].dispatched + (if IsFor(s, f, k) then f.data else [])
                  && r.insts[k].written == s.insts[k].written)
  {
    hide Handle, Take, Open, Finish;
    HandleCases(s, f, replied);
    if Acts(s, f) {
      if f.cmd.Syn? {
        OpenDispatches(s, f.streamId, k);
      } else if f.cmd.Psh? {
        TakeDispatches(s, s.streams[f.streamId], f.data, k);
      } else {
        FinishDispatches(s, f.streamId);
      }
    }
  }

  lemma TakeDispatches(s: State, j: nat, data: seq<byte>, k: nat)
    requires WellFormed(s) && j < |s.insts|
    ensures var r := Take(s, j, data);
            |r.insts| == |s.insts| &&
            (k < |s.insts| ==>
               && r.insts[k].dispatched == s.insts[k].dispatched + (if j == k then data else [])
               && r.insts[k].written == s.insts[k].written)
  {
    hide WellFormed;
  }

  lemma OpenDispatches(s: State, id: u32, k: nat)
    requires WellFormed(s) && id !in s.streams
    ensures var r := Open(s, id);
            && |r.insts| == |s.insts| + 1 && r.insts[|s.insts|].dispatched == r.insts[|s.insts|].written == []
            && (k < |s.insts| ==> r.insts[k] == s.insts[k])
  {
    hide WellFormed;
  }

  lemma FinishDispatches(s: State, id: u32)
    requires WellFormed(s) && id in s.streams
    ensures Finish(s, id).insts == s.insts
  {
    hide Consistent;
  }

  /** Steps other than handing over a frame open no stream and do not stop the receive loop. */
  ghost predicate Alike(s: State, r: State) {
    |r.insts| == |s.insts| && r.settings == s.settings && r.recvStopped == s.recvStopped
  }

  /** The queue only grows, by items that fit a frame, and the outgoing loop stays where it is. */
  ghost predicate Unpumped(s: State, r: State) {
    && (forall j :: |s.log| <= j < |r.log| ==> |r.log[j].data| <= MAX_FRAME_DATA_SIZE)
    && s.log <= r.log && r.head == s.head && r.pumping == s.pumping
    && r.sent == s.sent && r.outStopped == s.outStopped
  }

  lemma OthersAlike(s: State, a: Action)
    requires WellFormed(s) && !Takes(s, a)
    ensures Alike(s, Step(s, a)) && (!a.Pump? ==> Unpumped(s, Step(s, a)))
    ensures !a.Pump? && !a.Clear? ==> Step(s, a).streams == s.streams
  {
    hide Handle, DeliverHeld, ReadOne, Enqueue, PumpOne;
    match a
    case Deliver => DeliverAlike(s);
    case Read(k, room) => if Usable(s, k) { ReadAlike(s, k, room); }
    case Write(k, buf, gone) => if Usable(s, k) {
        EnqueueAlike(s, k, WriteTo(s.insts[k].stream, s.Closed(), Full(s), gone, buf), true);
      }
    case ShutDown(k, gone) => if Usable(s, k) {
        EnqueueAlike(s, k, Shutdown(s.insts[k].stream, s.Closed(), Full(s), gone), true);
      }
    case DropStream(k, gone) => if Usable(s, k) {
        EnqueueAlike(s, k, Drop(s.insts[k].stream, Full(s), gone), false);
      }
    case Pump(ok) => PumpAlike(s, ok);
    case _ =>
  }

  lemma DeliverAlike(s: State)
    requires WellFormed(s)
    ensures Alike(s, DeliverHeld(s)) && DeliverHeld(s).streams == s.streams && Unpumped(s, DeliverHeld(s))
  {
    hide WellFormed, DeliverHeld;
    DeliverForm(s);
  }

  lemma ReadAlike(s: State, k: nat, room: nat)
    requires WellFormed(s) && k < |s.insts|
    ensures var r := ReadOne(s, k, room); Alike(s, r) && r.streams == s.streams && Unpumped(s, r)
  {
    hide ReadFrom, Extends, Consistent;
  }

  lemma EnqueueAlike(s: State, k: nat, step: WriteStep, alive: bool)
    requires WellFormed(s) && k < |s.insts| && Consistent(step.state)
    requires step.send.Some? ==> |step.send.value| <= MAX_FRAME_DATA_SIZE
    ensures var r := Enqueue(s, k, step, alive); Alike(s, r) && r.streams == s.streams && Unpumped(s, r)
  {
    hide WellFormed, Enqueue;
    EnqueueForm(s, k, step, alive);
  }

  lemma PumpAlike(s: State, ok: bool)
    requires WellFormed(s)
    ensures Alike(s, PumpOne(s, ok))
  {
    hide PumpOne, WellFormed;
    PumpForm(s, ok);
  }

  /** In every run, what was dispatched to a stream is the payload of the frames handed over for it. */
  lemma {:induction false} DispatchedIsPayload(actions: seq<Action>, k: nat)
    ensures Payload(actions, k) == if k < |Run(actions).insts| then Run(actions).insts[k].dispatched else []
  {
    hide Step, Handle, WellFormed;
    if actions != [] {
      var n := |actions| - 1;
      var s, a := Run(actions[..n]), actions[n];
      DispatchedIsPayload(actions[..n], k);
      DispatchedStep(s, a, k);
    }
  }

  lemma DispatchedStep(s: State, a: Action, k: nat)
    requires WellFormed(s)
    ensures var r := Step(s, a);
            (if k < |r.insts| then r.insts[k].dispatched else []) ==
            (if k < |s.insts| then s.insts[k].dispatched else []) + if Takes(s, a) && IsFor(s, a.f, k) then a.f.data
                else []
  {
    hide Handle, WellFormed, DeliverHeld, ReadOne, Enqueue, PumpOne;
    if Takes(s, a) {
      HandleDispatches(s, a.f, a.replied, k);
    } else {
      OthersAlike(s, a);
      if k < |s.insts| {
        Inbound.StepShrinks(s, a, k);
      }
    }
  }

  /**
   A stream is listed from the SYN that opens it until its FIN is handed over, the outgoing loop removes it after its
   own end mark, or the session, having closed, lets go of all streams; and never again.
   */
  lemma ListedUntil(s: State, a: Action, k: nat)
    requires WellFormed(s) && k < |s.insts|
    ensures InMap(Step(s, a), k) <==>
            && InMap(s, k) && !(a.Clear? && s.closing == Flagged)
            && !(Takes(s, a) && a.f.cmd.Fin? && a.f.streamId == s.insts[k].id)
            && !(a.Pump? && s.pumping == Removing(s.insts[k].id))
  {
    hide Handle, DeliverHeld, ReadOne, Enqueue, PumpOne, InMap, WellFormed;
    if Takes(s, a) {
      HandleListed(s, a.f, a.replied, k);
    } else if a.Pump? {
      PumpListed(s, a.ok, k);
    } else if a.Clear? && s.closing == Flagged {
      ClearListed(s, k);
    } else {
      OthersAlike(s, a);
      SameListed(s, Step(s, a), k);
    }
  }

  lemma SameListed(s: State, r: State, k: nat)
    requires k < |s.insts| && Extends(s, r) && r.streams == s.streams
    ensures InMap(r, k) <==> InMap(s, k)
  {
  }

  lemma HandleListed(s: State, f: Frame, replied: bool, k: nat)
    requires WellFormed(s) && k < |s.insts|
    ensures InMap(Handle(s, f, replied), k) <==> InMap(s, k) && !(f.cmd.Fin? && f.streamId == s.insts[k].id)
  {
    hide Handle, Take, Open, Finish, InMap;
    HandleCases(s, f, replied);
    if !Acts(s, f) {
      SameListed(s, Handle(s, f, replied), k);
      if f.cmd.Fin? && f.streamId == s.insts[k].id {
        Unlisted(s, f, k);
      }
    } else if f.cmd.Psh? {
      TakeMap(s, s.streams[f.streamId], f.data);
      SameListed(s, Take(s, s.streams[f.streamId], f.data), k);
    } else if f.cmd.Syn? {
      OpenListed(s, f.streamId, k);
    } else {
      FinishListed(s, f.streamId, k);
    }
  }

  lemma Unlisted(s: State, f: Frame, k: nat)
    requires k < |s.insts| && !Acts(s, f) && f.cmd.Fin? && f.streamId == s.insts[k].id
    ensures !InMap(s, k)
  {
  }

  lemma TakeMap(s: State, j: nat, data: seq<byte>)
    requires WellFormed(s) && j < |s.insts|
    ensures Take(s, j, data).streams == s.streams
  {
    hide WellFormed;
  }

  lemma OpenListed(s: State, id: u32, k: nat)
    requires WellFormed(s) && id !in s.streams && k < |s.insts|
    ensures InMap(Open(s, id), k) <==> InMap(s, k)
  {
    hide Consistent;
  }

  lemma FinishListed(s: State, id: u32, k: nat)
    requires WellFormed(s) && id in s.streams && k < |s.insts|
    ensures InMap(Finish(s, id), k) <==> InMap(s, k) && s.insts[k].id != id
  {
    hide Consistent;
  }

  lemma PumpListed(s: State, ok: bool, k: nat)
    requires WellFormed(s) && k < |s.insts|
    ensures InMap(PumpOne(s, ok), k) <==> InMap(s, k) && s.pumping != Removing(s.insts[k].id)
  {
    hide PumpOne, WellFormed;
    PumpForm(s, ok);
  }

  lemma ClearListed(s: State, k: nat)
    requires k < |s.insts|
    ensures !InMap(s.(closing := Cleared, streams := map[]), k)
  {
  }

  /** Bytes read from a stream, then those on their way to it, are the payload of the frames handed over for it. */
  lemma ReadsArePayload(actions: seq<Action>, k: nat)
    requires k < |Run(actions).insts|
    ensures var s := Run(actions);
            var i := s.insts[k];
            && i.returned <= Payload(actions, k)
            && (i.alive ==>
                  i.returned + (Unread(i.stream) + Flatten(i.queue) + Inbound.BytesOf(Inbound.HandFor(s, k)))
                  == Payload(actions, k))
  {
    hide Run, Payload;
    DispatchedIsPayload(actions, k);
    Inbound.RunKeeps(actions);
    assert Inbound.StreamOk(Run(actions), k);
  }

  // ----- things do happen -----

  /** A SYN after the settings, for an id not in use, opens a stream that is then listed. */
  lemma SynOpens(s: State, id: u32, data: seq<byte>, replied: bool)
    requires WellFormed(s) && s.settings && s.hand.Idle? && !s.recvStopped && id !in s.streams
    ensures var r := Step(s, Receive(Frame(Syn, id, data), replied));
            && |r.insts| == |s.insts| + 1 && r.insts[|s.insts|] == Inst(id, FRESH, [], true, [], [], [])
            && InMap(r, |s.insts|)
  {
    hide Handle, Consistent;
    HandleCases(s, Frame(Syn, id, data), replied);
  }

  /** A FIN for a listed stream is held for it as an end mark, a PSH as its payload, until there is room. */
  lemma HeldForStream(s: State, f: Frame, replied: bool)
    requires WellFormed(s) && s.hand.Idle? && !s.recvStopped && f.streamId in s.streams
    requires f.cmd.Fin? || (f.cmd.Psh? && f.data != [])
    ensures Step(s, Receive(f, replied)).hand == Holding(s.streams[f.streamId], if f.cmd.Fin? then [] else f.data)
  {
    hide Handle, Consistent;
    HandleCases(s, f, replied);
  }

  /** What is held goes into the stream's channel once there is room; if the stream is gone, it is let go. */
  lemma HeldIsQueued(s: State)
    requires WellFormed(s) && s.hand.Holding? && s.hand.k < |s.insts|
    ensures var i, r := s.insts[s.hand.k], Step(s, Deliver);
            if !i.alive then r.hand.Idle? && r.insts == s.insts
            else if |i.queue| < 16 then r.hand.Idle? && r.insts[s.hand.k].queue == i.queue + [s.hand.data]
            else r == s
  {
    hide WellFormed, DeliverHeld;
    DeliverForm(s);
  }

  /** The outgoing loop takes the next item and, if its write succeeds, sends it; once closed it stops instead. */
  lemma NextIsSent(s: State, any: bool)
    requires WellFormed(s) && s.pumping.Resting? && !s.outStopped && s.head < |s.log|
    ensures !s.Closed() ==> Step(Step(s, Pump(any)), Pump(true)).sent == s.sent + [s.log[s.head]]
    ensures s.Closed() ==> Step(s, Pump(any)).outStopped && Step(s, Pump(any)).sent == s.sent
  {
    hide Consistent, Extends;
    if !s.Closed() {
      assert Step(s, Pump(any)) == s.(pumping := Writing);
    }
  }

  /** Once an end mark was written, or could not be, its stream is taken off the map and the loop goes on. */
  lemma EndMarkRemoves(s: State, ok: bool, any: bool)
    requires WellFormed(s) && s.pumping.Writing? && s.log[s.head].data == []
    ensures var r := Step(Step(s, Pump(ok)), Pump(any));
            && r.streams == s.streams - {s.log[s.head].id}
            && r.head == s.head + 1 && r.pumping.Resting? && !r.outStopped
  {
    hide Consistent, Extends;
    var q := Step(s, Pump(ok));
    assert q.pumping == Removing(s.log[s.head].id) && q.streams == s.streams;
  }

  /** How many items wait in the outgoing channel. */
  function Waiting(s: State): int {
    |s.log| - s.head - if s.pumping.Writing? then 1 else 0
  }

  lemma EnqueueWaits(s: State, k: nat, step: WriteStep, alive: bool)
    requires WellFormed(s) && k < |s.insts| && Consistent(step.state) && Waiting(s) <= 64
    requires step.send.Some? ==> !Full(s)
    ensures Waiting(Enqueue(s, k, step, alive)) <= 64
  {
    hide WellFormed, Enqueue;
    EnqueueForm(s, k, step, alive);
  }

  lemma PumpWaits(s: State, ok: bool)
    requires WellFormed(s)
    ensures Waiting(PumpOne(s, ok)) <= Waiting(s)
  {
    hide Consistent, Extends;
  }

  lemma WaitsStep(s: State, a: Action)
    requires WellFormed(s) && Waiting(s) <= 64
    ensures Waiting(Step(s, a)) <= 64
  {
    hide Handle, DeliverHeld, ReadOne, Enqueue, PumpOne;
    match a
    case Receive(f, replied) => if Takes(s, a) { HandleWaits(s, f, replied); }
    case Deliver => DeliverForm(s);
    case Read(k, room) => if Usable(s, k) { ReadForm(s, k, room); }
    case Write(k, buf, gone) => if Usable(s, k) {
        WriteReportsQueued(s.insts[k].stream, s.Closed(), Full(s), gone, buf);
        EnqueueWaits(s, k, WriteTo(s.insts[k].stream, s.Closed(), Full(s), gone, buf), true);
      }
    case ShutDown(k, gone) => if Usable(s, k) {
        ShutdownMarksIff(s.insts[k].stream, s.Closed(), Full(s), gone);
        EnqueueWaits(s, k, Shutdown(s.insts[k].stream, s.Closed(), Full(s), gone), true);
      }
    case DropStream(k, gone) => if Usable(s, k) {
        DropMarksIff(s.insts[k].stream, Full(s), gone);
        EnqueueWaits(s, k, Drop(s.insts[k].stream, Full(s), gone), false);
      }
    case Pump(ok) => PumpWaits(s, ok);
    case Close =>
    case Clear =>
  }

  lemma ReadForm(s: State, k: nat, room: nat)
    requires WellFormed(s) && k < |s.insts|
    ensures ReadOne(s, k, room).log == s.log && Waiting(ReadOne(s, k, room)) == Waiting(s)
  {
    hide ReadFrom, Extends, Consistent;
  }

  lemma HandleWaits(s: State, f: Frame, replied: bool)
    requires WellFormed(s)
    ensures Waiting(Handle(s, f, replied)) == Waiting(s)
  {
    hide Handle, Consistent, Extends;
    HandleCases(s, f, replied);
    HandleUnpumped(s, f, replied);
    if !Acts(s, f) {
      HandleFlagsLog(s, f, replied);
    }
  }

  /** In every run, at most 64 items wait for the outgoing loop. */
  lemma {:induction false} QueueBounded(actions: seq<Action>)
    ensures Waiting(Run(actions)) <= 64
  {
    hide Step, WellFormed;
    if actions != [] {
      QueueBounded(actions[..|actions| - 1]);
      WaitsStep(Run(actions[..|actions| - 1]), actions[|actions| - 1]);
    }
  }

  // ----- where the receive loop stops -----

  predicate HasSettings(fs: seq<Frame>) {
    exists i :: 0 <= i < |fs| && fs[i].cmd.Settings?
  }

  /** The handler's verdict on a frame: a SYN before the settings, an alert, or a reply that did not go out. */
  predicate Refuses(earlier: seq<Frame>, f: Frame, replied: bool) {
    match f.cmd
    case Syn => !HasSettings(earlier)
    case Alert => true
    case Settings => !replied
    case HeartRequest => !replied
    case _ => false
  }

  /** The verdict on the last of `fs`, as the receive loop asks for it. */
  predicate Accepts(replies: nat -> bool, fs: seq<Frame>) {
    fs != [] ==> !Refuses(fs[..|fs| - 1], fs[|fs| - 1], replies(|fs| - 1))
  }

  lemma HandleStops(s: State, f: Frame, replied: bool, earlier: seq<Frame>)
    requires WellFormed(s) && !s.recvStopped && (s.settings <==> HasSettings(earlier))
    ensures var r := Handle(s, f, replied);
            && (r.settings <==> s.settings || f.cmd.Settings?)
            && (r.recvStopped <==> Refuses(earlier, f, replied))
  {
    hide HasSettings, WellFormed, Take, Open, Finish;
    if Acts(s, f) {
      ActsQuietly(s, f);
    }
  }

  lemma ActsQuietly(s: State, f: Frame)
    requires WellFormed(s)
    ensures f.streamId in s.streams ==>
              && Same(s, Take(s, s.streams[f.streamId], f.data)) && Same(s, Finish(s, f.streamId))
    ensures f.streamId !in s.streams ==> Same(s, Open(s, f.streamId))
  {
    hide Consistent;
  }

  ghost predicate Same(s: State, r: State) {
    r.settings == s.settings && r.recvStopped == s.recvStopped && Unpumped(s, r)
  }

  lemma SettingsSnoc(fs: seq<Frame>, f: Frame)
    ensures HasSettings(fs + [f]) <==> HasSettings(fs) || f.cmd.Settings?
  {
    assert (fs + [f])[|fs|] == f;
    assert forall i :: 0 <= i < |fs| ==> (fs + [f])[i] == fs[i];
  }

  /** Having been handed `fs`, the machine has stopped exactly if the last of them, and no other, was refused. */
  ghost predicate StopsRight(s: State, fs: seq<Frame>, replies: nat -> bool) {
    && (s.settings <==> HasSettings(fs))
    && (s.recvStopped <==> !Accepts(replies, fs))
    && forall k :: 0 <= k < |fs| ==> Accepts(replies, fs[..k])
  }

  lemma StopsStep(s: State, a: Action, fs: seq<Frame>, replies: nat -> bool)
    requires WellFormed(s) && StopsRight(s, fs, replies) && Takes(s, a) && replies(|fs|) == a.replied
    ensures StopsRight(Step(s, a), fs + [a.f], replies)
  {
    hide Step, WellFormed, HasSettings, Refuses, Handle;
    var gs := fs + [a.f];
    TakeStep(s, a);
    HandleStops(s, a.f, a.replied, fs);
    SettingsSnoc(fs, a.f);
    assert gs[..|gs| - 1] == fs && fs[..|fs|] == fs;
    assert forall k :: 0 <= k <= |fs| ==> gs[..k] == fs[..k];
  }

  /** In every run the machine stops taking frames exactly at the first one its handler refuses. */
  lemma {:induction false} StopsAtRefusal(actions: seq<Action>, replies: nat -> bool)
    requires forall i :: 0 <= i < |Replies(actions)| ==> replies(i) == Replies(actions)[i]
    ensures StopsRight(Run(actions), Handled(actions), replies)
  {
    if actions == [] {
      NoSettings();
    } else {
      hide Step, WellFormed, StopsRight;
      var n := |actions| - 1;
      var s, a, fs := Run(actions[..n]), actions[n], Handled(actions[..n]);
      var before := Replies(actions[..n]);
      assert forall i :: 0 <= i < |before| ==> Replies(actions)[i] == before[i];
      StopsAtRefusal(actions[..n], replies);
      if Takes(s, a) {
        assert Replies(actions)[|fs|] == a.replied;
        StopsStep(s, a, fs, replies);
      } else {
        OthersAlike(s, a);
        assert Handled(actions) == fs;
        StaysRight(s, Step(s, a), fs, replies);
      }
    }
  }

  lemma StaysRight(s: State, r: State, fs: seq<Frame>, replies: nat -> bool)
    requires StopsRight(s, fs, replies) && Alike(s, r)
    ensures StopsRight(r, fs, replies)
  {
  }

  lemma TakeStep(s: State, a: Action)
    requires WellFormed(s) && Takes(s, a)
    ensures Step(s, a) == Handle(s, a.f, a.replied)
  {
  }

  lemma NoSettings()
    ensures !HasSettings([])
  {
  }

  /**
   The loop and the machine agree: if the machine was handed the frames the receive loop dispatched, the loop ended at
   a refusal exactly if the machine stopped.
   */
  lemma LoopAgrees(actions: seq<Action>, replies: nat -> bool, bytes: seq<byte>, end: ReceiveLoop.LoopEnd)
    requires forall i :: 0 <= i < |Replies(actions)| ==> replies(i) == Replies(actions)[i]
    requires ReceiveLoop.Explains(bytes, fs => Accepts(replies, fs), Handled(actions), end)
    ensures end.Refused? <==> Run(actions).recvStopped
  {
    hide DecodeAll, Run, Handled, Replies, Refuses;
    StopsAtRefusal(actions, replies);
  }

  // ----- what is on the wire for a stream -----

  /** The payload of the PSH frames with an id. */
  function PayloadOn(frames: seq<Frame>, id: u32): seq<byte> {
    if frames == [] then [] else
    var f := frames[|frames| - 1];
    PayloadOn(frames[..|frames| - 1], id) + if f.cmd.Psh? && f.streamId == id then f.data else []
  }

  lemma {:induction false} PayloadOfItems(items: seq<Item>, id: u32)
    ensures PayloadOn(SessionWriter.FramesOf(items), id) == Flatten(Outbound.OfId(items, id))
  {
    var fs := SessionWriter.FramesOf(items);
    if items != [] {
      var n := |items| - 1;
      PayloadOfItems(items[..n], id);
      assert fs[..n] == SessionWriter.FramesOf(items[..n]);
      var before := Outbound.OfId(items[..n], id);
      if items[n].id == id {
        FlattenSnoc(before, items[n].data);
      } else {
        assert before + [] == before;
      }
    }
  }

  lemma PayloadSnoc(fs: seq<Frame>, f: Frame, id: u32)
    ensures PayloadOn(fs + [f], id) == PayloadOn(fs, id) + if f.cmd.Psh? && f.streamId == id then f.data else []
  {
    assert (fs + [f])[..|fs|] == fs;
  }

  lemma {:induction false} PayloadAppend(a: seq<Frame>, b: seq<Frame>, id: u32)
    ensures PayloadOn(a + b, id) == PayloadOn(a, id) + PayloadOn(b, id)
    decreases |b|
  {
    if b == [] {
      assert a + b == a;
    } else {
      var n := |b| - 1;
      PayloadAppend(a, b[..n], id);
      PayloadSnoc(a + b[..n], b[n], id);
      assert b == b[..n] + [b[n]];
      Associate(a, b[..n], [b[n]]);
      var more := if b[n].cmd.Psh? && b[n].streamId == id then b[n].data else [];
      Associate(PayloadOn(a, id), PayloadOn(b[..n], id), more);
    }
  }

  /** Neither control frames nor Waste carry payload of a stream. */
  lemma {:induction false} PayloadOfStreamFrames(fs: seq<Frame>, id: u32)
    ensures PayloadOn(SessionWriter.StreamFrames(fs), id) == PayloadOn(fs, id)
  {
    if fs != [] {
      var n := |fs| - 1;
      PayloadOfStreamFrames(fs[..n], id);
      if fs[n].cmd.Psh? || fs[n].cmd.Fin? {
        PayloadSnoc(SessionWriter.StreamFrames(fs[..n]), fs[n], id);
      } else {
        assert SessionWriter.StreamFrames(fs) == SessionWriter.StreamFrames(fs[..n]);
      }
    }
  }

  lemma {:induction false} StreamFramesOfDropped(fs: seq<Frame>)
    ensures SessionWriter.StreamFrames(DropWaste(fs)) == SessionWriter.StreamFrames(fs)
  {
    if fs != [] {
      var first := if fs[0].cmd.Waste? then [] else [fs[0]];
      StreamFramesOfDropped(fs[1..]);
      SessionWriter.StreamFramesAppend(first, DropWaste(fs[1..]));
      SessionWriter.StreamFramesAppend([fs[0]], fs[1..]);
      assert fs == [fs[0]] + fs[1..];
      assert SessionWriter.StreamFrames([fs[0]][..0]) == [];
    }
  }

  lemma PayloadOfDropped(fs: seq<Frame>, id: u32)
    ensures PayloadOn(DropWaste(fs), id) == PayloadOn(fs, id)
  {
    StreamFramesOfDropped(fs);
    PayloadOfStreamFrames(fs, id);
    PayloadOfStreamFrames(DropWaste(fs), id);
  }

  lemma PayloadPrefix(a: seq<Frame>, b: seq<Frame>, id: u32)
    requires a <= b
    ensures PayloadOn(a, id) <= PayloadOn(b, id)
  {
    assert b == a + b[|a|..];
    PayloadAppend(a, b[|a|..], id);
  }

  // ----- what the outgoing loop has sent -----

  /** How many items of the queue went out as frames; the last one taken before the loop stops does not. */
  function Gone(s: State): nat {
    if s.outStopped && s.head > 0 then s.head - 1 else s.head
  }

  /** No step of the run fails to write an end mark; after such a failure the loop goes on. */
  ghost predicate EndMarksGoOut(actions: seq<Action>) {
    forall j :: 0 <= j < |actions| ==> MarkGoesOut(Run(actions[..j]), actions[j])
  }

  predicate MarkGoesOut(s: State, a: Action)
    requires WellFormed(s)
  {
    a == Pump(false) && s.pumping.Writing? ==> s.log[s.head].data != []
  }

  ghost predicate SentInTurn(s: State) {
    && (forall j :: 0 <= j < |s.log| ==> |s.log[j].data| <= MAX_FRAME_DATA_SIZE)
    && Gone(s) <= |s.log| && (s.outStopped ==> s.head > 0) && s.sent == s.log[..Gone(s)]
  }

  lemma PumpInTurn(s: State, ok: bool)
    requires WellFormed(s) && SentInTurn(s) && MarkGoesOut(s, Pump(ok))
    ensures SentInTurn(PumpOne(s, ok))
  {
    hide Consistent;
    if s.pumping.Writing? {
      assert s.log[..s.head + 1] == s.log[..s.head] + [s.log[s.head]];
    }
  }

  lemma StepInTurn(s: State, a: Action)
    requires WellFormed(s) && SentInTurn(s) && MarkGoesOut(s, a)
    ensures SentInTurn(Step(s, a))
  {
    hide Handle, DeliverHeld, ReadOne, Enqueue, PumpOne, WellFormed;
    if a.Pump? {
      PumpInTurn(s, a.ok);
    } else if Takes(s, a) {
      HandleUnpumped(s, a.f, a.replied);
    } else {
      OthersAlike(s, a);
    }
  }

  /**
   In every run, however the outgoing loop is interleaved with the rest, what it has sent are the items of the queue
   in order, without gap, up to where it is.
   */
  lemma {:induction false} SentIsQueue(actions: seq<Action>)
    requires EndMarksGoOut(actions)
    ensures SentInTurn(Run(actions))
  {
    hide Step, WellFormed, MarkGoesOut;
    if actions != [] {
      var n := |actions| - 1;
      assert forall j :: 0 <= j < n ==> actions[..n][..j] == actions[..j];
      SentIsQueue(actions[..n]);
      StepInTurn(Run(actions[..n]), actions[n]);
    }
  }

  // ----- what the streams have queued -----

  /** With fresh ids, the payloads queued under a stream's id are what the stream wrote. */
  ghost predicate QueuedIsWritten(s: State) {
    && Outbound.Known(s, s.log)
    && forall k :: 0 <= k < |s.insts| ==> Flatten(Outbound.OfId(s.log, s.insts[k].id)) == s.insts[k].written
  }

  lemma StillQueued(s: State, r: State)
    requires QueuedIsWritten(s) && Extends(s, r) && |r.insts| == |s.insts| && r.log == s.log
    requires forall k :: 0 <= k < |s.insts| ==> r.insts[k].written == s.insts[k].written
    ensures QueuedIsWritten(r)
  {
    hide Flatten, Outbound.OfId;
    Outbound.StillKnown(s, r, s.log);
  }

  lemma EnqueueQueues(s: State, k: nat, step: WriteStep, alive: bool)
    requires WellFormed(s) && QueuedIsWritten(s) && Outbound.FreshIds(s) && k < |s.insts| && Consistent(step.state)
    ensures QueuedIsWritten(Enqueue(s, k, step, alive))
  {
    hide WellFormed, Enqueue, Flatten, Outbound.OfId;
    EnqueueForm(s, k, step, alive);
    var r := Enqueue(s, k, step, alive);
    Outbound.StillKnown(s, r, s.log);
    assert r.insts[k].id == s.insts[k].id;
    forall j | 0 <= j < |r.insts|
      ensures Flatten(Outbound.OfId(r.log, r.insts[j].id)) == r.insts[j].written
    {
      if step.send.Some? {
        var data, all := step.send.value, Outbound.OfId(s.log, s.insts[j].id);
        Outbound.OfIdSnoc(s.log, Item(s.insts[k].id, data), s.insts[j].id);
        FlattenSnoc(all, data);
        assert all + [] == all;
      } else {
        assert s.insts[j].written + [] == s.insts[j].written && s.log + [] == s.log;
      }
    }
  }

  lemma OpenQueues(s: State, id: u32)
    requires WellFormed(s) && QueuedIsWritten(s) && id !in s.streams && Outbound.FreshIds(Open(s, id))
    ensures QueuedIsWritten(Open(s, id))
  {
    hide WellFormed, Flatten, Outbound.OfId;
    var r := Open(s, id);
    Outbound.StillKnown(s, r, s.log);
    Outbound.NoneYet(s, r, s.log);
    FlattenNothing<byte>();
  }

  lemma HandleQueues(s: State, f: Frame, replied: bool)
    requires WellFormed(s) && QueuedIsWritten(s) && Outbound.FreshIds(Handle(s, f, replied))
    ensures QueuedIsWritten(Handle(s, f, replied))
  {
    hide Handle, Take, Open, Finish, QueuedIsWritten, Consistent;
    HandleCases(s, f, replied);
    HandleUnpumped(s, f, replied);
    if !Acts(s, f) {
      HandleFlagsLog(s, f, replied);
      StillQueued(s, Handle(s, f, replied));
    } else if f.cmd.Psh? {
      Outbound.TakeQuiet(s, s.streams[f.streamId], f.data);
      StillQueued(s, Handle(s, f, replied));
    } else if f.cmd.Syn? {
      OpenQueues(s, f.streamId);
    } else {
      Outbound.FinishQuiet(s, f.streamId);
      StillQueued(s, Handle(s, f, replied));
    }
  }

  lemma HandleFlagsLog(s: State, f: Frame, replied: bool)
    requires WellFormed(s) && !Acts(s, f)
    ensures Handle(s, f, replied).log == s.log
  {
    hide WellFormed, Handle;
    HandleFlags(s, f, replied);
  }

  lemma QueuesStep(s: State, a: Action)
    requires WellFormed(s) && QueuedIsWritten(s) && Outbound.FreshIds(s) && Outbound.FreshIds(Step(s, a))
    ensures QueuedIsWritten(Step(s, a))
  {
    hide Handle, DeliverHeld, ReadOne, Enqueue, PumpOne, QueuedIsWritten, Outbound.FreshIds;
    match a
    case Receive(f, replied) => if Takes(s, a) { HandleQueues(s, f, replied); }
    case Deliver => DeliverForm(s); StillQueued(s, DeliverHeld(s));
    case Read(k, room) => if Usable(s, k) { ReadQueues(s, k, room); }
    case Write(k, buf, gone) => if Usable(s, k) {
        EnqueueQueues(s, k, WriteTo(s.insts[k].stream, s.Closed(), Full(s), gone, buf), true);
      }
    case ShutDown(k, gone) => if Usable(s, k) {
        EnqueueQueues(s, k, Shutdown(s.insts[k].stream, s.Closed(), Full(s), gone), true);
      }
    case DropStream(k, gone) => if Usable(s, k) {
        EnqueueQueues(s, k, Drop(s.insts[k].stream, Full(s), gone), false);
      }
    case Pump(ok) => PumpForm(s, ok); StillQueued(s, PumpOne(s, ok));
    case Close => StillQueued(s, Step(s, a));
    case Clear => StillQueued(s, Step(s, a));
  }

  lemma ReadQueues(s: State, k: nat, room: nat)
    requires WellFormed(s) && QueuedIsWritten(s) && k < |s.insts|
    ensures QueuedIsWritten(ReadOne(s, k, room))
  {
    hide QueuedIsWritten, ReadFrom;
    StillQueued(s, ReadOne(s, k, room));
  }

  /** In every run with fresh ids, whatever was written, the queue holds exactly what the streams wrote. */
  lemma {:induction false} QueueHoldsWrites(actions: seq<Action>)
    requires Outbound.FreshIds(Run(actions))
    ensures QueuedIsWritten(Run(actions))
  {
    if actions != [] {
      hide Step, WellFormed, QueuedIsWritten;
      var n := |actions| - 1;
      var s, a := Run(actions[..n]), actions[n];
      assert Extends(s, Step(s, a));
      QueueHoldsWrites(actions[..n]);
      QueuesStep(s, a);
    }
  }

  /** For an id, what was sent and what the outgoing loop is done with carry the same payload. */
  ghost predicate SentPayload(s: State, id: u32) {
    && Gone(s) <= |s.log| && (s.outStopped ==> s.head > 0)
    && Flatten(Outbound.OfId(s.sent, id)) == Flatten(Outbound.OfId(s.log[..Gone(s)], id))
  }

  lemma PumpPayload(s: State, ok: bool, id: u32)
    requires WellFormed(s) && SentPayload(s, id)
    ensures SentPayload(PumpOne(s, ok), id)
  {
    hide WellFormed, PumpOne, Flatten, Outbound.OfId;
    var r := PumpOne(s, ok);
    PumpForm(s, ok);
    if r.head == s.head {
      Outbound.PumpRests(s, ok);
    } else {
      Outbound.PumpTakes(s, ok);
      if r.outStopped {
        PumpStops(s, ok);
      }
      var item, done := s.log[s.head], s.log[..s.head];
      assert s.log[..s.head + 1] == done + [item];
      Outbound.OfIdSnoc(done, item, id);
      Outbound.OfIdSnoc(s.sent, item, id);
      FlattenSnoc(Outbound.OfId(done, id), item.data);
      FlattenSnoc(Outbound.OfId(s.sent, id), item.data);
      assert Outbound.OfId(done, id) + [] == Outbound.OfId(done, id);
      assert Outbound.OfId(s.sent, id) + [] == Outbound.OfId(s.sent, id);
      assert Flatten(Outbound.OfId(done, id)) + [] == Flatten(Outbound.OfId(done, id));
    }
  }

  lemma PumpStops(s: State, ok: bool)
    requires WellFormed(s) && PumpOne(s, ok).head != s.head && PumpOne(s, ok).outStopped
    ensures PumpOne(s, ok).sent == s.sent
  {
    hide Consistent, Extends;
  }

  lemma {:induction false} SentPayloadRun(actions: seq<Action>, id: u32)
    ensures SentPayload(Run(actions), id)
  {
    if actions != [] {
      hide Step, WellFormed, SentPayload;
      var n := |actions| - 1;
      SentPayloadRun(actions[..n], id);
      SentPayloadStep(Run(actions[..n]), actions[n], id);
    }
  }

  lemma SentPayloadStep(s: State, a: Action, id: u32)
    requires WellFormed(s) && SentPayload(s, id)
    ensures SentPayload(Step(s, a), id)
  {
    hide Handle, DeliverHeld, ReadOne, Enqueue, PumpOne, WellFormed, Flatten, Outbound.OfId;
    if a.Pump? {
      PumpPayload(s, a.ok, id);
    } else {
      if Takes(s, a) {
        HandleUnpumped(s, a.f, a.replied);
      } else {
        OthersAlike(s, a);
      }
      assert Step(s, a).log[..Gone(s)] == s.log[..Gone(s)];
    }
  }

  /**
   In every run with fresh stream ids, whatever was written and whichever frame writes failed, the payloads sent for a
   stream are an in-order prefix of what its writes accepted, and all of it once nothing waits and the loop goes on.
   */
  lemma SentIsWritten(actions: seq<Action>, k: nat)
    requires Outbound.FreshIds(Run(actions)) && k < |Run(actions).insts|
    ensures var s := Run(actions);
            var sent := Flatten(Outbound.OfId(s.sent, s.insts[k].id));
            && sent <= Accepted(actions, k)
            && (s.head == |s.log| && !s.outStopped ==> sent == Accepted(actions, k))
  {
    hide Run, Flatten, Outbound.OfId, Accepted;
    var s := Run(actions);
    var id := s.insts[k].id;
    WrittenIsAccepted(actions, k);
    QueueHoldsWrites(actions);
    SentPayloadRun(actions, id);
    Outbound.OfIdPrefix(s.log, Gone(s), id);
    Outbound.FlattenPrefix(Outbound.OfId(s.log[..Gone(s)], id), Outbound.OfId(s.log, id));
    assert s.log[..|s.log|] == s.log;
  }

  // ----- what the writes were told -----

  /** The bytes a write step on stream `k` is told were accepted: as many of its slice as it reports. */
  function Reported(s: State, a: Action, k: nat): seq<byte>
    requires WellFormed(s)
  {
    if a.Write? && a.k == k && Usable(s, k) then
      var r := WriteTo(s.insts[k].stream, s.Closed(), Full(s), a.gone, a.buf).result;
      if r.Wrote? then a.buf[..Min(r.n, |a.buf|)] else []
    else []
  }

  /** What the writes on stream `k` were told was accepted, in order. */
  function Accepted(actions: seq<Action>, k: nat): seq<byte> {
    if actions == [] then [] else
    var n := |actions| - 1;
    Accepted(actions[..n], k) + Reported(Run(actions[..n]), actions[n], k)
  }

  ghost function WrittenBy(s: State, k: nat): seq<byte> {
    if k < |s.insts| then s.insts[k].written else []
  }

  lemma EnqueueWrites(s: State, j: nat, step: WriteStep, alive: bool, k: nat)
    requires WellFormed(s) && j < |s.insts| && Consistent(step.state)
    ensures WrittenBy(Enqueue(s, j, step, alive), k) ==
            WrittenBy(s, k) + if k == j && step.send.Some? then step.send.value else []
  {
    hide WellFormed, Enqueue;
    EnqueueForm(s, j, step, alive);
    assert WrittenBy(s, k) + [] == WrittenBy(s, k);
  }

  lemma SameWritten(s: State, r: State, k: nat)
    requires |r.insts| == |s.insts| && forall j :: 0 <= j < |s.insts| ==> r.insts[j].written == s.insts[j].written
    ensures WrittenBy(r, k) == WrittenBy(s, k) + []
  {
  }

  lemma ReadWrites(s: State, j: nat, room: nat, k: nat)
    requires WellFormed(s) && j < |s.insts|
    ensures WrittenBy(ReadOne(s, j, room), k) == WrittenBy(s, k) + []
  {
    hide ReadFrom, Extends, Consistent;
    SameWritten(s, ReadOne(s, j, room), k);
  }

  lemma HandleWrites(s: State, f: Frame, replied: bool, k: nat)
    requires WellFormed(s)
    ensures WrittenBy(Handle(s, f, replied), k) == WrittenBy(s, k) + []
  {
    hide WellFormed, Handle;
    HandleDispatches(s, f, replied, k);
  }

  /** The reported count is what a write adds to the queue. */
  lemma WritesStep(s: State, a: Action, k: nat)
    requires WellFormed(s)
    ensures WrittenBy(Step(s, a), k) == WrittenBy(s, k) + Reported(s, a, k)
  {
    hide Handle, DeliverHeld, ReadOne, Enqueue, PumpOne, WrittenBy;
    SameWritten(s, s, k);
    match a
    case Receive(f, replied) => if Takes(s, a) { HandleWrites(s, f, replied, k); }
    case Deliver => DeliverForm(s); SameWritten(s, DeliverHeld(s), k);
    case Read(j, room) => if Usable(s, j) { ReadWrites(s, j, room, k); }
    case Write(j, buf, gone) => if Usable(s, j) {
        WriteReportsQueued(s.insts[j].stream, s.Closed(), Full(s), gone, buf);
        EnqueueWrites(s, j, WriteTo(s.insts[j].stream, s.Closed(), Full(s), gone, buf), true, k);
      }
    case ShutDown(j, gone) => if Usable(s, j) {
        ShutdownMarksIff(s.insts[j].stream, s.Closed(), Full(s), gone);
        EnqueueWrites(s, j, Shutdown(s.insts[j].stream, s.Closed(), Full(s), gone), true, k);
      }
    case DropStream(j, gone) => if Usable(s, j) {
        DropMarksIff(s.insts[j].stream, Full(s), gone);
        EnqueueWrites(s, j, Drop(s.insts[j].stream, Full(s), gone), false, k);
      }
    case Pump(ok) => PumpForm(s, ok); SameWritten(s, PumpOne(s, ok), k);
    case Close => SameWritten(s, Step(s, a), k);
    case Clear => SameWritten(s, Step(s, a), k);
  }

  /** In every run, what a stream has written is what its writes were told was accepted. */
  lemma {:induction false} WrittenIsAccepted(actions: seq<Action>, k: nat)
    ensures WrittenBy(Run(actions), k) == Accepted(actions, k)
  {
    if actions != [] {
      hide Step, WellFormed, Reported, WrittenBy;
      var n := |actions| - 1;
      WrittenIsAccepted(actions[..n], k);
      WritesStep(Run(actions[..n]), actions[n], k);
    }
  }

  // ----- the wire -----

  /** Among the frames given to the writer, those of streams are these items; padding is whole, no frame too long. */
  ghost predicate Wrote(w: SessionWriter.Writer, items: seq<Item>)
    reads w, w.sink, w.writeBuf
  {
    && w.Valid() && WholePadding(w.packets) && AllFit(w.written)
    && SessionWriter.StreamFrames(w.written) == SessionWriter.FramesOf(items)
  }

  /** In every run, the stream frames read back from the wire are those of what the outgoing loop sent. */
  lemma ReadAsSent(actions: seq<Action>, w: SessionWriter.Writer)
    requires EndMarksGoOut(actions) && Wrote(w, Run(actions).log[..Gone(Run(actions))]) && !w.broken && w.held == []
    ensures SessionWriter.StreamFrames(Seen(w.sink.accepted)) == SessionWriter.FramesOf(Run(actions).sent)
  {
    hide Run, EndMarksGoOut, WireBytes, FramesIn, DropWaste, DecodeAll, WholePadding, SessionWriter.StreamFrames;
    SentIsQueue(actions);
    assert FramesIn(w.packets) == w.written;
    PacketsFitIff(w.packets);
    ReadWire(w.packets);
    StreamFramesOfDropped(w.written);
  }

  /**
   What is read back from the wire for an id is a prefix of `written`, while the wire is one of the writer's packets or
   begins so; it is `written` if the writer was given `all` of it and nothing failed or is held back.
   */
  ghost predicate Carried(w: SessionWriter.Writer, id: u32, written: seq<byte>, all: bool)
    reads w, w.sink
  {
    var carried := PayloadOn(Seen(w.sink.accepted), id);
    && (w.sink.accepted <= WireBytes(w.packets) ==> carried <= written)
    && (all && !w.broken && w.held == [] ==> carried == written)
  }

  /** What is read back for a stream begins the payload of the items the writer was given for it. */
  lemma WireCarriesItems(w: SessionWriter.Writer, items: seq<Item>, id: u32)
    requires Wrote(w, items)
    ensures Carried(w, id, Flatten(Outbound.OfId(items, id)), true)
  {
    hide WireBytes, FramesIn, DropWaste, DecodeAll, WholePadding, SessionWriter.StreamFrames, PayloadOn, Flatten;
    PayloadOfDropped(w.written, id);
    PayloadOfStreamFrames(w.written, id);
    PayloadOfItems(items, id);
    if w.sink.accepted <= WireBytes(w.packets) {
      SessionWriter.WireMeaning(w.sink.accepted, w.packets, w.held, w.written);
      PayloadPrefix(Seen(w.sink.accepted), DropWaste(w.written), id);
      NothingDropped();
      assert Seen(w.sink.accepted) + [] == Seen(w.sink.accepted);
    }
  }

  lemma NothingDropped()
    ensures DropWaste([]) == []
  {
  }

  /**
   In every run with fresh stream ids, once the writer has been given the first `n` queued items, among any control
   frames: what is read back from the wire for a stream, torn or with frames held back, is an in-order prefix of what
   its writes accepted; and all of it once it was given all items and nothing failed or is held back.
   */
  lemma WireCarriesStream(actions: seq<Action>, w: SessionWriter.Writer, n: nat, k: nat)
    requires Outbound.FreshIds(Run(actions)) && k < |Run(actions).insts| && n <= |Run(actions).log|
    ensures var s := Run(actions);
            Wrote(w, s.log[..n]) ==> Carried(w, s.insts[k].id, Accepted(actions, k), n == |s.log|)
  {
    hide Run, PayloadOn, Flatten, Seen, Wrote, WireBytes, Accepted;
    var s := Run(actions);
    var id := s.insts[k].id;
    WrittenIsAccepted(actions, k);
    QueueHoldsWrites(actions);
    if Wrote(w, s.log[..n]) {
      WireCarriesItems(w, s.log[..n], id);
      Outbound.OfIdPrefix(s.log, n, id);
      Outbound.FlattenPrefix(Outbound.OfId(s.log[..n], id), Outbound.OfId(s.log, id));
      assert s.log[..|s.log|] == s.log;
    }
  }
}
