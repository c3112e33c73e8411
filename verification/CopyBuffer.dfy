/** One direction of a relay: a circular buffer between a polled source and a polled sink. */
module CopyBuffer {
  import opened Bytes
  import opened Transport

  // ----- the ring -----

  /** An index going once past the end, modulo the size. */
  function Wrap(i: nat, size: nat): (r: nat)
    requires 0 < size && i < 2 * size
    ensures r == if i < size then i else i - size
  {
    ModuloOnce(i, size);
    i % size
  }

  lemma ModuloOnce(i: nat, size: nat)
    requires 0 < size && i < 2 * size
    ensures i % size == if i < size then i else i - size
  {
    if i >= size {
      assert i == size + (i - size);
    }
  }

  /** The `len` bytes from `start` on, read modulo the size. */
  function Ring(s: seq<byte>, start: nat, len: nat): (r: seq<byte>)
    requires start < |s| && len <= |s|
    ensures |r| == len
  {
    seq(len, i requires 0 <= i < len => s[Wrap(start + i, |s|)])
  }

  /** Where the free part ends that begins at `freeStart`. */
  function FreeEnd(start: nat, freeStart: nat, size: nat): nat {
    if freeStart < start then start else size
  }

  /** Writing into the free slice appends to the ring: the slice is contiguous and clear of the bytes in use. */
  lemma RingExtend(s: seq<byte>, t: seq<byte>, start: nat, len: nat, n: nat)
    requires |t| == |s| && start < |s| && len < |s|
    requires var lo := Wrap(start + len, |s|);
             && n <= FreeEnd(start, lo, |s|) - lo
             && forall i :: 0 <= i < lo || lo + n <= i < |s| ==> t[i] == s[i]
    ensures len + n <= |s|
    ensures var lo := Wrap(start + len, |s|);
            Ring(t, start, len + n) == Ring(s, start, len) + t[lo..lo + n]
  {
    hide Wrap;
    var lo := Wrap(start + len, |s|);
    var a, b := Ring(t, start, len + n), Ring(s, start, len);
    forall i | 0 <= i < len + n
      ensures a[i] == (b + t[lo..lo + n])[i]
    {
      var j := Wrap(start + i, |s|);
      assert a[i] == t[j];
      if i < len {
        assert b[i] == s[j];
      } else {
        assert j == lo + (i - len);
      }
    }
  }

  /** Taking bytes from the used slice shortens the ring from the front. */
  lemma RingShrink(s: seq<byte>, start: nat, len: nat, n: nat)
    requires start < |s| && len <= |s| && n <= len && start + n <= |s|
    ensures Ring(s, start, len) == s[start..start + n] + Ring(s, Wrap(start + n, |s|), len - n)
  {
    hide Wrap;
    var next := Wrap(start + n, |s|);
    var a, b := Ring(s, start, len), Ring(s, next, len - n);
    forall i | 0 <= i < len
      ensures a[i] == (s[start..start + n] + b)[i]
    {
      var j := Wrap(start + i, |s|);
      assert a[i] == s[j];
      if i >= n {
        assert b[i - n] == s[Wrap(next + (i - n), |s|)];
      }
    }
  }

  /** What `rounds` full buffers hold. */
  ghost function Volume(rounds: nat, size: nat): nat {
    rounds * size
  }

  lemma VolumeStep(rounds: nat, size: nat)
    ensures Volume(0, size) == 0
    ensures Volume(rounds + 1, size) == Volume(rounds, size) + size
  {
  }

  // ----- the copier -----

  class CopyBuffer {
    var readDone: bool
    var needFlush: bool
    var needWritePing: bool
    var startIndex: nat
    var cacheLength: nat
    const size: nat
    const buf: array<byte>
    ghost const exempt: nat  // bytes the sink held unflushed before the copier began, with no flush asked for

    ghost predicate Valid()
      reads this
    {
      && 0 < size == buf.Length
      && startIndex < size && cacheLength <= size
      && (cacheLength == 0 ==> startIndex == 0)
    }

    /** The bytes read and not yet written, in order. */
    ghost function Contents(): seq<byte>
      requires Valid()
      reads this, buf
    {
      Ring(buf[..], startIndex, cacheLength)
    }

    /** All that the sink has accepted is flushed, or the copier has written nothing since it began. */
    ghost predicate Flushed(w: Sink)
      reads w
    {
      w.flushed == |w.accepted| || |w.accepted| <= exempt
    }

    ghost predicate Clean(w: Sink)
      reads this, w
    {
      w.Valid() && !w.closed && (!needFlush ==> Flushed(w))
    }

    constructor (size: nat, needInitialFlush: bool, ghost exempt: nat)
      requires size > 0
      ensures Valid() && Contents() == [] && !readDone && needFlush == needInitialFlush && this.size == size
      ensures this.exempt == exempt
      ensures fresh(buf)
    {
      readDone, needFlush, needWritePing := false, needInitialFlush, false;
      startIndex, cacheLength := 0, 0;
      this.size, this.exempt := size, exempt;
      buf := new byte[size](_ => 0);
    }

    /** One read into the free slice, which is never empty; a ready result is how much came. */
    method ReadOnce(r: Source) returns (p: Poll<nat>)
      requires Valid() && !readDone && cacheLength < size
      modifies this`readDone, this`cacheLength, buf, r
      ensures Valid()
      ensures old(r.delivered) <= r.delivered
      ensures Contents() == old(Contents()) + r.delivered[|old(r.delivered)|..]
      ensures readDone == (p == Ready(0)) && (readDone ==> r.ended) && (old(r.ended) ==> r.ended)
      ensures cacheLength == old(cacheLength) + if p.Ready? then p.value else 0
      ensures r.pendings == old(r.pendings) + if p.Pending? then 1 else 0
      ensures r.failures == old(r.failures) + if p.Failed? then 1 else 0
      ensures if old(r.script) == [] then r.script == [] && p.Pending? else Work(r.script) < Work(old(r.script))
    {
      hide Wrap, Ring;
      var lo := Wrap(startIndex + cacheLength, size);
      var hi := FreeEnd(startIndex, lo, size);
      ghost var before := buf[..];
      p := r.PollInto(buf, lo, hi);
      ghost var n := if p.Ready? then p.value else 0;
      assert r.delivered[|old(r.delivered)|..] == buf[lo..lo + n];
      RingExtend(before, buf[..], startIndex, cacheLength, n);
      if p.Ready? {
        if p.value == 0 {
          readDone := true;
        } else {
          cacheLength := cacheLength + p.value;
        }
      }
    }

    /** The reading loop: ready when the source has ended or the buffer is full. */
    method Fill(r: Source) returns (status: Poll<()>)
      requires Valid()
      modifies this`readDone, this`cacheLength, buf, r
      ensures Valid()
      ensures old(r.delivered) <= r.delivered
      ensures Contents() == old(Contents()) + r.delivered[|old(r.delivered)|..]
      ensures (readDone ==> old(readDone) || r.ended) && (old(r.ended) ==> r.ended)
      ensures old(readDone) ==> readDone && cacheLength == old(cacheLength)
      ensures status.Ready? ==> readDone || cacheLength == size
      ensures r.pendings >= old(r.pendings) && (status.Pending? ==> r.pendings > old(r.pendings))
      ensures r.failures >= old(r.failures) && (status.Failed? ==> r.failures > old(r.failures))
      ensures Work(r.script) <= old(Work(r.script))
      ensures status.Ready? && !old(readDone) && old(cacheLength) < size ==> Work(r.script) < old(Work(r.script))
    {
      hide Ring;
      ghost var got: seq<byte> := [];
      status := Ready(());
      while !readDone && cacheLength < size && status.Ready?
        invariant Valid()
        invariant r.delivered == old(r.delivered) + got
        invariant Contents() == old(Contents()) + got
        invariant (readDone ==> old(readDone) || r.ended) && (old(r.ended) ==> r.ended)
        invariant old(readDone) ==> readDone && cacheLength == old(cacheLength)
        invariant r.pendings >= old(r.pendings) && (status.Pending? ==> r.pendings > old(r.pendings))
        invariant r.failures >= old(r.failures) && (status.Failed? ==> r.failures > old(r.failures))
        invariant Work(r.script) <= old(Work(r.script))
        invariant status.Ready? ==>
                    (readDone == old(readDone) && cacheLength == old(cacheLength)) ||
                        Work(r.script) < old(Work(r.script))
        decreases Work(r.script), status.Ready?
      {
        ghost var delivered := r.delivered;
        var p := ReadOnce(r);
        got := got + r.delivered[|delivered|..];
        if p.Pending? {
          status := Pending;
        } else if p.Failed? {
          status := Failed(p.retry);
        }
      }
      assert r.delivered[|old(r.delivered)|..] == got;
    }

    /** The writing loop: ready when the buffer is empty. */
    method Drain(w: Sink) returns (status: Poll<()>)
      requires Valid() && Clean(w)
      modifies this`startIndex, this`cacheLength, this`needFlush, w
      ensures Valid() && Clean(w)
      ensures w.accepted + Contents() == old(w.accepted) + old(Contents())
      ensures |old(w.accepted)| <= |w.accepted| && old(w.flushed) <= w.flushed
      ensures status.Ready? ==> cacheLength == 0
      ensures w.pendings >= old(w.pendings) && (status.Pending? ==> w.pendings > old(w.pendings))
      ensures w.failures >= old(w.failures) && (status.Failed? ==> w.failures > old(w.failures))
      ensures |w.script| <= |old(w.script)|
      ensures status.Ready? && old(cacheLength) > 0 ==> |w.script| < |old(w.script)|
    {
      hide Wrap, Ring;
      while cacheLength > 0
        invariant Valid() && Clean(w)
        invariant w.accepted + Contents() == old(w.accepted) + old(Contents())
        invariant |old(w.accepted)| <= |w.accepted| && w.flushed == old(w.flushed)
        invariant w.pendings >= old(w.pendings) && w.failures >= old(w.failures)
        invariant |w.script| <= |old(w.script)|
        invariant cacheLength == old(cacheLength) || |w.script| < |old(w.script)|
        decreases cacheLength, |w.script|
      {
        var end := if startIndex + cacheLength < size then startIndex + cacheLength else size;
        ghost var accepted, contents := w.accepted, Contents();
        var p := w.PollWrite(buf[startIndex..end]);
        match p {
          case Pending => return Pending;
          case Failed(retry) => return Failed(retry);
          case Ready(written) =>
            if written == 0 {
              return Failed(false);
            }
            Written(buf[..], startIndex, cacheLength, written, buf[startIndex..end], accepted, w.accepted);
            cacheLength := cacheLength - written;
            if cacheLength == 0 {
              startIndex := 0;
            } else {
              startIndex := Wrap(startIndex + written, size);
            }
            needFlush := true;
        }
      }
      status := Ready(());
    }

    /**
     `poll_copy`; `proceed` is what the scheduler's budget says. For every behaviour of source and sink: what
     the sink has accepted, then the ring, is what it had accepted, then what the ring held, then what was
     read. Ready means the source ended, the ring is empty and everything is flushed. Pending means the
     budget or an underlying operation was Pending in this very call, and if no operation of the sink was, that
     everything read is written and flushed; Failed means one failed. Each extra round moves a full buffer.
     */
    method PollCopy(proceed: bool, r: Source, w: Sink) returns (status: Poll<()>, ghost rounds: nat)
      requires Valid() && Clean(w)
      modifies this, buf, r, w
      ensures Valid() && Clean(w)
      ensures old(r.delivered) <= r.delivered
      ensures w.accepted + Contents() == old(w.accepted) + old(Contents()) + r.delivered[|old(r.delivered)|..]
      ensures (readDone ==> old(readDone) || r.ended) && (old(r.ended) ==> r.ended)
      ensures status.Ready? ==> readDone && cacheLength == 0 && Flushed(w)
      ensures r.pendings >= old(r.pendings) && w.pendings >= old(w.pendings)
      ensures status.Pending? && proceed ==>
                && r.pendings + w.pendings > old(r.pendings + w.pendings)
                && (w.pendings > old(w.pendings) || (cacheLength == 0 && Flushed(w)))
      ensures r.failures >= old(r.failures) && w.failures >= old(w.failures)
      ensures status.Failed? ==> r.failures + w.failures > old(r.failures + w.failures)
      ensures |old(w.accepted)| + Volume(rounds, size) <= |w.accepted| && old(w.flushed) <= w.flushed
    {
      hide Ring, Volume;
      rounds := 0;
      VolumeStep(rounds, size);
      if !proceed {
        return Pending, 0;
      }
      ghost var got: seq<byte> := [];
      ghost var start := old(w.accepted) + old(Contents());
      assert start + [] == start;
      while true
        invariant Valid() && Clean(w)
        invariant r.delivered == old(r.delivered) + got
        invariant w.accepted + Contents() == start + got
        invariant (readDone ==> old(readDone) || r.ended) && (old(r.ended) ==> r.ended)
        invariant r.pendings >= old(r.pendings) && w.pendings >= old(w.pendings)
        invariant r.failures >= old(r.failures) && w.failures >= old(w.failures)
        invariant |old(w.accepted)| + Volume(rounds, size) <= |w.accepted| && old(w.flushed) <= w.flushed
        decreases Work(r.script) + |w.script|
      {
        ghost var delivered := r.delivered;
        var outcome := Round(r, w);
        ghost var more := r.delivered[|delivered|..];
        Associate(start, got, more);
        got := got + more;
        if outcome.Some? {
          assert r.delivered[|old(r.delivered)|..] == got;
          return outcome.value, rounds;
        }
        VolumeStep(rounds, size);
        rounds := rounds + 1;
      }
    }

    /** One turn of the outer loop: the result to return, or none if it goes round again. */
    method Round(r: Source, w: Sink) returns (outcome: Option<Poll<()>>)
      requires Valid() && Clean(w)
      modifies this, buf, r, w
      ensures Valid() && Clean(w)
      ensures old(r.delivered) <= r.delivered
      ensures w.accepted + Contents() == old(w.accepted) + old(Contents()) + r.delivered[|old(r.delivered)|..]
      ensures (readDone ==> old(readDone) || r.ended) && (old(r.ended) ==> r.ended)
      ensures outcome.Some? && outcome.value.Ready? ==> readDone && cacheLength == 0 && Flushed(w)
      ensures r.pendings >= old(r.pendings) && w.pendings >= old(w.pendings)
      ensures outcome.Some? && outcome.value.Pending? ==>
                && r.pendings + w.pendings > old(r.pendings + w.pendings)
                && (w.pendings > old(w.pendings) || (cacheLength == 0 && Flushed(w)))
      ensures r.failures >= old(r.failures) && w.failures >= old(w.failures)
      ensures outcome.Some? && outcome.value.Failed? ==> r.failures + w.failures > old(r.failures + w.failures)
      ensures |old(w.accepted)| <= |w.accepted| && old(w.flushed) <= w.flushed
      ensures outcome.None? ==>
                && |old(w.accepted)| + size <= |w.accepted|
                && Work(r.script) + |w.script| < old(Work(r.script) + |w.script|)
    {
      hide Ring;
      var reading := Fill(r);
      ghost var more := r.delivered[|old(r.delivered)|..];
      Associate(old(w.accepted), old(Contents()), more);
      if reading.Failed? {
        return Some(reading);
      }
      var pinging := Ping(w);
      if pinging.Failed? {
        return Some(pinging);
      }
      ghost var waiting := cacheLength;
      assert |w.accepted + Contents()| == |old(w.accepted)| + waiting;
      var draining := Drain(w);
      assert |w.accepted + Contents()| == |old(w.accepted)| + waiting;
      if draining.Failed? {
        return Some(draining);
      }
      outcome := Settle(w, reading.Pending? || pinging.Pending? || draining.Pending?);
    }

    /** The end of a turn: flushes if that is due, and says whether to go round again. */
    method Settle(w: Sink, stalled: bool) returns (outcome: Option<Poll<()>>)
      requires Valid() && Clean(w)
      modifies this`needFlush, w
      ensures Valid() && Clean(w) && w.accepted == old(w.accepted) && old(w.flushed) <= w.flushed
      ensures outcome.Some? && outcome.value.Ready? ==> readDone && cacheLength == 0 && Flushed(w)
      ensures w.pendings >= old(w.pendings) && w.failures >= old(w.failures)
      ensures outcome.Some? && outcome.value.Pending? ==> w.pendings > old(w.pendings) || (stalled && Flushed(w))
      ensures outcome.Some? && outcome.value.Failed? ==> w.failures > old(w.failures)
      ensures outcome.None? ==> !stalled && !(readDone && cacheLength == 0)
      ensures |w.script| <= |old(w.script)|
    {
      if needFlush {
        var flushing := w.PollFlush();
        if !flushing.Ready? {
          return Some(flushing);
        }
        needFlush := false;
      }
      if readDone && cacheLength == 0 {
        return Some(Ready(()));
      }
      if stalled {
        return Some(Pending);
      }
      return None;
    }

    /** The keep-alive, due only while nothing waits to be written. */
    method Ping(w: Sink) returns (status: Poll<()>)
      requires Valid() && Clean(w)
      modifies this`needWritePing, this`needFlush, w
      ensures Valid() && Clean(w) && w.accepted == old(w.accepted) && w.flushed == old(w.flushed)
      ensures status.Ready? ==> !needWritePing
      ensures old(needWritePing) && cacheLength == 0 ==>
                if old(w.script) == [] then status.Pending? else |w.script| < |old(w.script)|
      ensures !old(needWritePing) || cacheLength > 0 ==> w.script == old(w.script)
      ensures w.pendings >= old(w.pendings) && (status.Pending? ==> w.pendings > old(w.pendings))
      ensures w.failures >= old(w.failures) && (status.Failed? ==> w.failures > old(w.failures))
      ensures |w.script| <= |old(w.script)|
    {
      status := Ready(());
      if needWritePing {
        if cacheLength == 0 {
          var p := w.PollWritePing();
          match p {
            case Pending => status := Pending;
            case Failed(retry) => status := Failed(retry);
            case Ready(written) =>
              needWritePing := false;
              if written {
                needFlush := true;
              }
          }
        } else {
          needWritePing := false;
        }
      }
    }
  }

  lemma Written(s: seq<byte>, start: nat, len: nat, n: nat, slice: seq<byte>, before: seq<byte>, after: seq<byte>)
    requires start < |s| && 0 < n <= |slice| && len <= |s|
    requires slice == s[start..if start + len < |s| then start + len else |s|]
    requires after == before + slice[..n]
    ensures n <= len
    ensures after + Ring(s, if n == len then 0 else Wrap(start + n, |s|), len - n) == before + Ring(s, start, len)
  {
    hide Ring, Wrap;
    var next := Wrap(start + n, |s|);
    RingShrink(s, start, len, n);
    assert slice[..n] == s[start..start + n];
    var rest := Ring(s, if n == len then 0 else next, len - n);
    assert rest == Ring(s, next, len - n);
    Associate(before, slice[..n], rest);
  }
}
