/**
 The two ends of a connection as the code meets them: a source that is polled for bytes and
 a sink that is polled to take them. What the peer and the runtime do is a finite script of
 events, so a statement about every script is a statement about every chunking and every
 interleaving of Pending, errors and partial progress. An exhausted script stays Pending.
 */
module Transport {
  import opened Bytes

  /** `Poll<io::Result<T>>`; `retry` marks an error of kind Interrupted. */
  datatype Poll<+T> = Pending | Failed(retry: bool) | Ready(value: T)

  /** `Arrival([])` is the end of the stream. */
  datatype ReadEvent = Stall | Break(retry: bool) | Arrival(data: seq<byte>)

  /** `Accept(n)` takes up to `n` bytes of a write, and lets any other operation succeed. */
  datatype WriteEvent = Stuck | Refuse | Accept(n: nat)

  ghost function Work(script: seq<ReadEvent>): nat {
    if script == [] then 0
    else (if script[0].Arrival? then 1 + |script[0].data| else 1) + Work(script[1..])
  }

  class Source {
    var script: seq<ReadEvent>
    ghost var delivered: seq<byte>  // every byte handed out so far
    ghost var pendings: nat         // how often a poll was Pending
    ghost var failures: nat         // how often a poll failed
    ghost var ended: bool           // an end of stream was reported

    constructor (script: seq<ReadEvent>)
      ensures this.script == script && delivered == [] && pendings == failures == 0 && !ended
    {
      this.script := script;
      delivered, pendings, failures, ended := [], 0, 0, false;
    }

    /** Polls for between one and `cap` bytes; nothing at all is the end of the stream. */
    method Poll(cap: nat) returns (r: Poll<seq<byte>>)
      requires cap > 0
      modifies this
      ensures r.Ready? ==> |r.value| <= cap && delivered == old(delivered) + r.value
      ensures !r.Ready? ==> delivered == old(delivered)
      ensures ended == (old(ended) || r == Ready([]))
      ensures pendings == old(pendings) + if r.Pending? then 1 else 0
      ensures failures == old(failures) + if r.Failed? then 1 else 0
      ensures if old(script) == [] then script == [] && r.Pending? else Work(script) < Work(old(script))
    {
      if script == [] {
        r := Pending;
      } else {
        var event, rest := script[0], script[1..];
        match event {
          case Stall => r, script := Pending, rest;
          case Break(retry) => r, script := Failed(retry), rest;
          case Arrival(data) =>
            if |data| <= cap {
              r, script := Ready(data), rest;
              ended := ended || data == [];
            } else {
              r, script := Ready(data[..cap]), [Arrival(data[cap..])] + rest;
              assert script[1..] == rest;
            }
            delivered := delivered + r.value;
        }
      }
      if r.Pending? {
        pendings := pendings + 1;
      } else if r.Failed? {
        failures := failures + 1;
      }
    }

    /** Polls into the non-empty slice `buf[lo..hi]`; a ready result is the number of bytes filled in. */
    method PollInto(buf: array<byte>, lo: nat, hi: nat) returns (r: Poll<nat>)
      requires lo < hi <= buf.Length
      modifies this, buf
      ensures r.Ready? ==> r.value <= hi - lo && delivered == old(delivered) + buf[lo..lo + r.value]
      ensures !r.Ready? ==> delivered == old(delivered)
      ensures forall i :: 0 <= i < lo || (if r.Ready? then lo + r.value else lo) <= i < buf.Length ==>
          buf[i] == old(buf[i])
      ensures ended == (old(ended) || r == Ready(0))
      ensures pendings == old(pendings) + if r.Pending? then 1 else 0
      ensures failures == old(failures) + if r.Failed? then 1 else 0
      ensures if old(script) == [] then script == [] && r.Pending? else Work(script) < Work(old(script))
    {
      var p := Poll(hi - lo);
      match p {
        case Pending => r := Pending;
        case Failed(retry) => r := Failed(retry);
        case Ready(data) =>
          forall i | 0 <= i < |data| {
            buf[lo + i] := data[i];
          }
          assert buf[lo..lo + |data|] == data;
          r := Ready(|data|);
      }
    }

    /** `stream.read(..).await`: polls until ready; Pending only if the script ends first. */
    method Await(cap: nat) returns (r: Poll<seq<byte>>)
      requires cap > 0
      modifies this
      ensures r.Ready? ==> |r.value| <= cap && delivered == old(delivered) + r.value
      ensures !r.Ready? ==> delivered == old(delivered)
      ensures ended == (old(ended) || r == Ready([]))
      ensures if r.Pending? then script == [] else Work(script) < Work(old(script))
      ensures pendings >= old(pendings)
      ensures failures == old(failures) + if r.Failed? then 1 else 0
    {
      r := Poll(cap);
      while r.Pending? && script != []
        invariant r.Ready? ==> |r.value| <= cap && delivered == old(delivered) + r.value
        invariant !r.Ready? ==> delivered == old(delivered)
        invariant ended == (old(ended) || r == Ready([])) && failures == old(failures) + if r.Failed? then 1 else 0
        invariant pendings >= old(pendings)
        invariant if old(script) == [] then script == [] && r.Pending? else Work(script) < Work(old(script))
        decreases Work(script)
      {
        r := Poll(cap);
      }
    }
  }

  class Sink {
    var script: seq<WriteEvent>
    ghost var accepted: seq<byte>  // every byte taken so far
    ghost var flushed: nat         // how many of them a flush has covered
    ghost var closed: bool         // a shutdown has completed
    ghost var pendings: nat        // how often an operation was Pending
    ghost var failures: nat        // how often one failed, or a write took nothing

    ghost predicate Valid()
      reads this
    {
      flushed <= |accepted|
    }

    constructor (script: seq<WriteEvent>)
      ensures this.script == script && accepted == [] && flushed == 0 && !closed && pendings == failures == 0
    {
      this.script := script;
      accepted, flushed, closed, pendings, failures := [], 0, false, 0, 0;
    }

    /** Offers a non-empty slice to an open sink; a ready result is the number of bytes taken. */
    method PollWrite(data: seq<byte>) returns (r: Poll<nat>)
      requires Valid() && !closed && data != []
      modifies this
      ensures Valid() && !closed && flushed == old(flushed)
      ensures r.Ready? ==> r.value <= |data| && accepted == old(accepted) + data[..r.value]
      ensures !r.Ready? ==> accepted == old(accepted)
      ensures pendings == old(pendings) + if r.Pending? then 1 else 0
      ensures failures == old(failures) + if r.Failed? || r == Ready(0) then 1 else 0
      ensures old(script) == [] ==> script == [] && r.Pending?
      ensures old(script) != [] ==> |script| < |old(script)|
    {
      var e := Next();
      match e {
        case Stuck => r := Pending;
        case Refuse => r := Failed(false);
        case Accept(n) =>
          r := Ready(if n < |data| then n else |data|);
          accepted := accepted + data[..r.value];
          failures := failures + if r.value == 0 then 1 else 0;
      }
    }

    method PollFlush() returns (r: Poll<()>)
      requires Valid()
      modifies this
      ensures Valid() && accepted == old(accepted) && closed == old(closed)
      ensures flushed == if r.Ready? then |accepted| else old(flushed)
      ensures pendings == old(pendings) + if r.Pending? then 1 else 0
      ensures failures == old(failures) + if r.Failed? then 1 else 0
      ensures old(script) == [] ==> script == [] && r.Pending?
      ensures old(script) != [] ==> |script| < |old(script)|
    {
      var e := Next();
      match e {
        case Stuck => r := Pending;
        case Refuse => r := Failed(false);
        case Accept(_) =>
          r := Ready(());
          flushed := |accepted|;
      }
    }

    method PollShutdown() returns (r: Poll<()>)
      requires Valid()
      modifies this
      ensures Valid() && accepted == old(accepted) && flushed == old(flushed)
      ensures closed == (old(closed) || r.Ready?)
      ensures pendings == old(pendings) + if r.Pending? then 1 else 0
      ensures failures == old(failures) + if r.Failed? then 1 else 0
      ensures old(script) == [] ==> script == [] && r.Pending?
      ensures old(script) != [] ==> |script| < |old(script)|
    {
      var e := Next();
      match e {
        case Stuck => r := Pending;
        case Refuse => r := Failed(false);
        case Accept(_) =>
          r := Ready(());
          closed := true;
      }
    }

    /** A keep-alive; a ready result says whether one was written. It carries no relayed byte. */
    method PollWritePing() returns (r: Poll<bool>)
      requires Valid()
      modifies this
      ensures Valid() && accepted == old(accepted) && flushed == old(flushed) && closed == old(closed)
      ensures pendings == old(pendings) + if r.Pending? then 1 else 0
      ensures failures == old(failures) + if r.Failed? then 1 else 0
      ensures old(script) == [] ==> script == [] && r.Pending?
      ensures old(script) != [] ==> |script| < |old(script)|
    {
      var e := Next();
      match e {
        case Stuck => r := Pending;
        case Refuse => r := Failed(false);
        case Accept(n) => r := Ready(n > 0);
      }
    }

    /** An awaited operation fails only if one of its polls did, and is stuck only at the end of the script. */
    twostate predicate NotForNothing<T>(new r: Poll<T>)
      reads this
    {
      && pendings >= old(pendings) && (r.Pending? ==> script == [])
      && failures >= old(failures) && (r.Failed? ==> failures > old(failures))
    }

    /**
     `write_all(..).await`: the whole of `data` when ready, some proper prefix of it otherwise. Pending
     only if the script ends first; a write of no bytes is an error.
     */
    method WriteAll(data: seq<byte>) returns (r: Poll<()>)
      requires Valid() && !closed
      modifies this
      ensures Valid() && !closed && flushed == old(flushed)
      ensures old(accepted) <= accepted <= old(accepted) + data
      ensures r.Ready? <==> accepted == old(accepted) + data
      ensures NotForNothing(r)
    {
      var sent: nat := 0;
      while sent < |data|
        invariant Valid() && !closed && flushed == old(flushed)
        invariant failures >= old(failures) && pendings >= old(pendings)
        invariant sent <= |data| && accepted == old(accepted) + data[..sent]
        decreases |script|, |data| - sent
      {
        var p := PollWrite(data[sent..]);
        if p.Failed? || p == Ready(0) {
          return Failed(false);
        } else if p.Pending? {
          if script == [] {
            return Pending;
          }
        } else {
          TakeMore(data, sent, p.value);
          sent := sent + p.value;
        }
      }
      assert data[..sent] == data;
      r := Ready(());
    }

    /** The repository's own write loops: like `WriteAll`, but a write of no bytes is simply repeated. */
    method WriteLoop(data: seq<byte>) returns (r: Poll<()>)
      requires Valid() && !closed
      modifies this
      ensures Valid() && !closed && flushed == old(flushed)
      ensures old(accepted) <= accepted <= old(accepted) + data
      ensures r.Ready? <==> accepted == old(accepted) + data
      ensures NotForNothing(r)
    {
      var sent: nat := 0;
      while sent < |data|
        invariant Valid() && !closed && flushed == old(flushed)
        invariant failures >= old(failures) && pendings >= old(pendings)
        invariant sent <= |data| && accepted == old(accepted) + data[..sent]
        decreases |script|
      {
        var p := PollWrite(data[sent..]);
        if p.Failed? {
          return Failed(p.retry);
        } else if p.Pending? {
          if script == [] {
            return Pending;
          }
        } else {
          TakeMore(data, sent, p.value);
          sent := sent + p.value;
        }
      }
      assert data[..sent] == data;
      r := Ready(());
    }

    /** `flush().await` */
    method Flush() returns (r: Poll<()>)
      requires Valid()
      modifies this
      ensures Valid() && accepted == old(accepted) && closed == old(closed)
      ensures flushed == if r.Ready? then |accepted| else old(flushed)
      ensures NotForNothing(r)
    {
      r := PollFlush();
      while r.Pending? && script != []
        invariant Valid() && accepted == old(accepted) && closed == old(closed)
        invariant flushed == if r.Ready? then |accepted| else old(flushed)
        invariant pendings >= old(pendings) && failures == old(failures) + if r.Failed? then 1 else 0
        decreases |script|
      {
        r := PollFlush();
      }
    }

    method Next() returns (e: WriteEvent)
      requires Valid()
      modifies this
      ensures accepted == old(accepted) && flushed == old(flushed) && closed == old(closed)
      ensures pendings == old(pendings) + if e.Stuck? then 1 else 0
      ensures failures == old(failures) + if e.Refuse? then 1 else 0
      ensures old(script) == [] ==> script == [] && e.Stuck?
      ensures old(script) != [] ==> e == old(script[0]) && script == old(script[1..])
    {
      if script == [] {
        e := Stuck;
      } else {
        e, script := script[0], script[1..];
      }
      if e.Stuck? {
        pendings := pendings + 1;
      } else if e.Refuse? {
        failures := failures + 1;
      }
    }
  }
}
