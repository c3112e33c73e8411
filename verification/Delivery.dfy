/** Fragments of one packet, in any order and among others, are rebuilt exactly once and unchanged. */
module Delivery {
  import opened Bytes
  import opened Reassembly

  // ----- recency -----

  ghost predicate IdsWithin(c: Cache, ids: set<u16>) {
    forall i :: 0 <= i < |c| ==> c[i].id in ids
  }

  /** Distinct ids out of a set are no more than the set holds. */
  lemma {:induction false} IdsBound(c: Cache, ids: set<u16>)
    requires Distinct(c) && IdsWithin(c, ids)
    ensures |c| <= |ids|
  {
    if c != [] {
      IdsBound(c[1..], ids - {c[0].id});
    }
  }

  /** A new packet enters at the front; the one that makes room for it is not `e`. */
  lemma PutSplit(ahead: Cache, e: Entry, behind: Cache, n: Entry, ids: set<u16>) returns (behind': Cache)
    requires CacheOk(ahead + [e] + behind) && !Contains(ahead + [e] + behind, n.id)
    requires IdsWithin(ahead, ids) && |ids + {n.id}| < 256
    ensures Put(ahead + [e] + behind, n) == [n] + ahead + [e] + behind'
  {
    hide EntryOk;
    var c := ahead + [e] + behind;
    assert forall i :: 0 <= i < |ahead| ==> ahead[i] == c[i];
    IdsBound([n] + ahead, ids + {n.id});
    behind' := behind;
    if |c| == 256 {
      behind' := behind[..|behind| - 1];
      assert c[..|c| - 1] == ahead + [e] + behind[..|behind| - 1];
    }
  }

  /** A packet that is used moves to the front. */
  lemma TouchSplit(ahead: Cache, e: Entry, behind: Cache, id: u16) returns (ahead': Cache, behind': Cache)
    requires Contains(ahead + [e] + behind, id) && id != e.id
    ensures Touch(ahead + [e] + behind, id) == ahead' + [e] + behind'
    ensures ahead' != [] && forall x :: x in ahead' ==> x in ahead || x.id == id
  {
    hide IndexOf;
    var c := ahead + [e] + behind;
    var i := IndexOf(c, id);
    assert c[|ahead|] == e;
    if i < |ahead| {
      ahead', behind' := [ahead[i]] + ahead[..i] + ahead[i + 1..], behind;
      SplitBefore(ahead, e, behind, i);
    } else {
      var j := i - |ahead| - 1;
      ahead', behind' := [c[i]] + ahead, behind[..j] + behind[j + 1..];
      SplitBehind(ahead, e, behind, j);
    }
  }

  lemma SplitBefore(ahead: Cache, e: Entry, behind: Cache, i: nat)
    requires i < |ahead|
    ensures var c := ahead + [e] + behind;
            && c[i] == ahead[i]
            && [c[i]] + c[..i] + c[i + 1..] == [ahead[i]] + ahead[..i] + ahead[i + 1..] + [e] + behind
  {
    var c := ahead + [e] + behind;
    assert c[..i] == ahead[..i] && c[i + 1..] == ahead[i + 1..] + [e] + behind;
    var a := [ahead[i]] + ahead[..i];
    Associate(a, ahead[i + 1..] + [e], behind);
    Associate(a, ahead[i + 1..], [e]);
  }

  lemma SplitBehind(ahead: Cache, e: Entry, behind: Cache, j: nat)
    requires j < |behind|
    ensures var c, i := ahead + [e] + behind, |ahead| + 1 + j;
            && c[i] == behind[j]
            && [c[i]] + c[..i] + c[i + 1..] == [c[i]] + ahead + [e] + (behind[..j] + behind[j + 1..])
  {
    var c, i := ahead + [e] + behind, |ahead| + 1 + j;
    assert c[..i] == ahead + [e] + behind[..j] && c[i + 1..] == behind[j + 1..];
    var a := [c[i]] + ahead + [e];
    NestRight([c[i]], ahead, [e], behind[..j]);
    Associate(ahead, [e], behind[..j]);
    Associate(a, behind[..j], behind[j + 1..]);
  }

  lemma RefreshSplit(ahead: Cache, e: Entry, behind: Cache, g: Fragment, ids: set<u16>)
    returns (ahead': Cache, behind': Cache)
    requires CacheOk(ahead + [e] + behind) && g.id != e.id
    requires IdsWithin(ahead, ids)
    requires Contains(ahead + [e] + behind, g.id) || |ids + {g.id}| < 256
    ensures Refresh(ahead + [e] + behind, g) == ahead' + [e] + behind'
    ensures ahead' != [] && IdsWithin(ahead', ids + {g.id})
  {
    hide CacheOk, Touch, Put, Contains;
    var c := ahead + [e] + behind;
    if Contains(c, g.id) {
      ahead', behind' := TouchSplit(ahead, e, behind, g.id);
      assert forall i :: 0 <= i < |ahead'| ==> ahead'[i] in ahead';
    } else {
      behind' := PutSplit(ahead, e, behind, Begun(g), ids);
      ahead' := [Begun(g)] + ahead;
    }
  }

  /**
   The packets in the cache that were used since, once another's fragment led to `o`: it joins them if it was stored,
   and leaves them if it completed or was thrown away. A packet that is not split never touches the cache.
   */
  function Since(ids: set<u16>, f: Fragment, o: Outcome): set<u16> {
    if o.Stored? then ids + {f.id} else if f.count >= 2 && !o.Crash? then ids - {f.id} else ids
  }

  lemma NewIsStored(c: Cache, g: Fragment)
    requires !Contains(c, g.id) && g.count >= 2
    ensures Accept(c, g).outcome.Stored? || Accept(c, g).outcome.Crash?
  {
    hide IndexOf, Joined;
  }

  /** A packet survives the arrival of another's fragment while fewer than 256 were used since its own. */
  lemma OtherArrives(ahead: Cache, e: Entry, behind: Cache, g: Fragment, ids: set<u16>)
    returns (ahead': Cache, behind': Cache)
    requires CacheOk(ahead + [e] + behind) && g.id != e.id && IdsWithin(ahead, ids)
    requires Accept(ahead + [e] + behind, g).outcome.Stored? ==> |ids + {g.id}| < 256
    ensures Accept(ahead + [e] + behind, g).cache == ahead' + [e] + behind'
    ensures IdsWithin(ahead', Since(ids, g, Accept(ahead + [e] + behind, g).outcome))
  {
    hide Refresh, Joined, CacheOk, Contains;
    var c := ahead + [e] + behind;
    var result := Accept(c, g);
    ahead', behind' := ahead, behind;
    if g.count >= 2 && !result.outcome.Crash? {
      if !Contains(c, g.id) {
        NewIsStored(c, g);
      }
      var a, b := RefreshSplit(ahead, e, behind, g, ids);
      var r := Refresh(c, g);
      assert r[0] == a[0] && r[1..] == a[1..] + [e] + b;
      if result.outcome.Stored? {
        ahead', behind' := [result.cache[0]] + a[1..], b;
      } else {
        ahead', behind' := a[1..], b;
        RefreshKeeps(c, g);
        RestDiffers(a, e, b, g.id);
      }
    }
  }

  lemma RestDiffers(a: Cache, e: Entry, b: Cache, id: u16)
    requires CacheOk(a + [e] + b) && a != [] && a[0].id == id
    ensures forall i :: 0 <= i < |a[1..]| ==> a[1..][i].id != id
  {
    hide EntryOk;
    var c := a + [e] + b;
    assert forall i :: 0 <= i < |a| ==> c[i] == a[i];
  }

  // ----- the packet of interest -----

  /** The indices of packet `p` that have arrived. */
  function Indices(h: seq<Fragment>, p: u16): set<nat> {
    if h == [] then {}
    else Indices(h[..|h| - 1], p) + if h[|h| - 1].id == p then {h[|h| - 1].index} else {}
  }

  /** The other packets in the cache that were used since the last fragment of `p`. */
  function OthersSince(c0: Cache, h: seq<Fragment>, p: u16): set<u16> {
    if h == [] || h[|h| - 1].id == p then {} else
    var n := |h| - 1;
    Since(OthersSince(c0, h[..n], p), h[n], OutcomeAt(c0, h, n))
  }

  /** The fragments of `p` in `h` are those of a packet split into `parts`, none twice. */
  ghost predicate Carries(h: seq<Fragment>, p: u16, parts: seq<seq<byte>>, location: Location) {
    && (forall k :: 0 <= k < |h| && h[k].id == p ==>
          h[k].count == |parts| && h[k].index < |parts| && h[k].data == parts[h[k].index] && h[k].location == location)
    && (forall j, k :: 0 <= j < k < |h| && h[j].id == p && h[k].id == p ==> h[j].index != h[k].index)
  }

  /** Between two fragments of `p`, never more than 255 other packets used since the first are in the cache. */
  ghost predicate Calm(c0: Cache, h: seq<Fragment>, p: u16) {
    forall j, k :: 0 <= j <= k < |h| && Indices(h[..j], p) != {} && h[k].id == p ==>
      |OthersSince(c0, h[..j], p)| < 256
  }

  /** The other split packets that got a fragment since the last one of `p`. */
  function HeardSince(h: seq<Fragment>, p: u16): set<u16> {
    if h == [] || h[|h| - 1].id == p then {} else
    HeardSince(h[..|h| - 1], p) + if h[|h| - 1].count >= 2 then {h[|h| - 1].id} else {}
  }

  lemma {:induction false} OthersWereHeard(c0: Cache, h: seq<Fragment>, p: u16)
    ensures OthersSince(c0, h, p) <= HeardSince(h, p)
  {
    hide Joined, Refresh;
    if h != [] && h[|h| - 1].id != p {
      OthersWereHeard(c0, h[..|h| - 1], p);
    }
  }

  lemma {:induction false} SubsetSize(a: set<u16>, b: set<u16>)
    requires a <= b
    ensures |a| <= |b|
  {
    if x :| x in a {
      SubsetSize(a - {x}, b - {x});
    }
  }

  /** Simple to tell from the fragments alone: with fewer than 256 other split packets in between, a run is calm. */
  lemma FewIsCalm(c0: Cache, h: seq<Fragment>, p: u16)
    requires forall j :: 0 <= j <= |h| ==> |HeardSince(h[..j], p)| < 256
    ensures Calm(c0, h, p)
  {
    hide OthersSince, HeardSince, Indices;
    forall j | 0 <= j <= |h|
      ensures |OthersSince(c0, h[..j], p)| < 256
    {
      OthersWereHeard(c0, h[..j], p);
      SubsetSize(OthersSince(c0, h[..j], p), HeardSince(h[..j], p));
    }
  }

  /** From the first fragment of `p` on, never more than 255 others used since are in the cache. */
  ghost predicate Steady(c0: Cache, h: seq<Fragment>, p: u16) {
    forall j :: 0 <= j <= |h| && Indices(h[..j], p) != {} ==>
      |OthersSince(c0, h[..j], p)| < 256
  }

  /** Up to any fragment of `p`, a calm run is steady. */
  lemma CalmIsSteady(c0: Cache, h: seq<Fragment>, k: nat, p: u16)
    requires Calm(c0, h, p) && k < |h| && h[k].id == p
    ensures Steady(c0, h[..k], p)
  {
    hide Indices, OthersSince;
    assert forall j :: 0 <= j <= k ==> h[..k][..j] == h[..j];
  }

  /** The slots once the indices in `s` have arrived. */
  ghost predicate SlotsOf(slots: Slots, parts: seq<seq<byte>>, s: set<nat>) {
    && |slots| == |parts|
    && forall i :: 0 <= i < |parts| ==> slots[i] == if i in s then Some(parts[i]) else None
  }

  ghost predicate Pending(e: Entry, p: u16, parts: seq<seq<byte>>, location: Location, s: set<nat>) {
    e.id == p && e.count == |parts| && e.location == location && SlotsOf(e.slots, parts, s)
  }

  /** Where packet `p` stands: not begun or done, or pending with only recent others ahead of it. */
  ghost predicate Stands(c: Cache, h: seq<Fragment>, p: u16, parts: seq<seq<byte>>, location: Location, ids: set<u16>) {
    var s := Indices(h, p);
    if s == {} || |s| == |parts| then !Contains(c, p)
    else PendingIn(c, p, parts, location, s, ids)
  }

  // ----- its own fragments -----

  lemma {:induction false} FullSet(s: set<nat>, n: nat)
    requires forall i :: i in s ==> i < n
    ensures |s| <= n
    ensures |s| == n <==> forall i: nat :: i < n ==> i in s
  {
    if n > 0 {
      var t := s - {n - 1};
      FullSet(t, n - 1);
      if n - 1 in s {
        assert |s| == |t| + 1;
      } else {
        assert s == t;
      }
    }
  }

  lemma {:induction false} JoinedParts(slots: Slots, parts: seq<seq<byte>>)
    requires |slots| == |parts| && forall i :: 0 <= i < |parts| ==> slots[i] == Some(parts[i])
    ensures Joined(slots) == Flatten(parts)
  {
    if parts != [] {
      JoinedParts(slots[1..], parts[1..]);
    }
  }

  /** Filling the slot of a new index: the packet is whole exactly when every index is there. */
  lemma Filling(e: Entry, f: Fragment, p: u16, parts: seq<seq<byte>>, location: Location, s: set<nat>)
    requires Pending(e, p, parts, location, s) && forall i :: i in s ==> i < |parts|
    requires e.received == Filled(e.slots)
    requires f.index < |parts| && f.index !in s && f.data == parts[f.index]
    ensures var e', s' := Fill(e, f), s + {f.index};
            && Pending(e', p, parts, location, s')
            && (e'.received == e'.count <==> |s'| == |parts|)
            && (|s'| == |parts| ==> Joined(e'.slots) == Flatten(parts))
  {
    hide Filled, Joined;
    var e', s' := Fill(e, f), s + {f.index};
    FilledUpdate(e.slots, f.index, f.data);
    FilledAll(e'.slots);
    FullSet(s', |parts|);
    if |s'| == |parts| {
      JoinedParts(e'.slots, parts);
    }
  }

  /** The first fragment of `p` begins it. */
  lemma FirstArrives(c: Cache, f: Fragment, parts: seq<seq<byte>>) returns (e: Entry, behind: Cache)
    requires !Contains(c, f.id) && 2 <= |parts| == f.count && f.index < |parts| && f.data == parts[f.index]
    ensures Accept(c, f) == Accepted([e] + behind, Stored)
    ensures Pending(e, f.id, parts, f.location, {f.index})
  {
    hide Filled, Joined, IndexOf;
    var r := Refresh(c, f);
    FilledNone(f.count);
    Filling(r[0], f, f.id, parts, f.location, {});
    assert {} + {f.index} == {f.index};
    e, behind := Fill(r[0], f), r[1..];
  }

  /** A further fragment of `p` brings it to the front, and completes it if it is the last. */
  lemma NextArrives(ahead: Cache, e: Entry, behind: Cache, f: Fragment, parts: seq<seq<byte>>, s: set<nat>)
    returns (e': Entry)
    requires CacheOk(ahead + [e] + behind)
    requires Pending(e, f.id, parts, f.location, s) && forall i :: i in s ==> i < |parts|
    requires f.count == |parts| && f.index < |parts| && f.index !in s && f.data == parts[f.index]
    ensures Accept(ahead + [e] + behind, f) ==
            if |s + {f.index}| == |parts| then Accepted(ahead + behind, Complete(Flatten(parts), f.location))
            else Accepted([e'] + (ahead + behind), Stored)
    ensures Pending(e', f.id, parts, f.location, s + {f.index})
    ensures !Contains(ahead + behind, f.id)
  {
    hide Filled, Joined, CacheOk, Refresh, Contains;
    RefreshOwn(ahead, e, behind, f);
    Filling(e, f, f.id, parts, f.location, s);
    e' := Fill(e, f);
    assert ([e] + (ahead + behind))[1..] == ahead + behind;
  }

  lemma RefreshOwn(ahead: Cache, e: Entry, behind: Cache, f: Fragment)
    requires CacheOk(ahead + [e] + behind) && e.id == f.id
    ensures EntryOk(e) && Refresh(ahead + [e] + behind, f) == [e] + (ahead + behind)
    ensures !Contains(ahead + behind, f.id)
  {
    hide EntryOk;
    var c := ahead + [e] + behind;
    assert c[|ahead|] == e;
    assert forall i :: 0 <= i < |ahead + behind| ==> (ahead + behind)[i] == c[if i < |ahead| then i else i + 1];
    assert IndexOf(c, f.id) == |ahead|;
    assert c[..|ahead|] == ahead && c[|ahead| + 1..] == behind;
  }

  // ----- whole runs -----

  lemma {:induction false} IndicesBelow(h: seq<Fragment>, p: u16, parts: seq<seq<byte>>, location: Location)
    requires Carries(h, p, parts, location)
    ensures forall i :: i in Indices(h, p) ==> i < |parts|
    ensures forall i :: i in Indices(h, p) ==> exists k :: 0 <= k < |h| && h[k].id == p && h[k].index == i
  {
    if h != [] {
      IndicesBelow(h[..|h| - 1], p, parts, location);
    }
  }

  lemma CarriesNew(h: seq<Fragment>, f: Fragment, p: u16, parts: seq<seq<byte>>, location: Location)
    requires Carries(h + [f], p, parts, location)
    ensures forall i :: i in Indices(h, p) ==> i < |parts|
    ensures f.id == p ==>
              && f.count == |parts| && f.index < |parts| && f.index !in Indices(h, p)
              && f.data == parts[f.index] && f.location == location
    ensures Indices(h + [f], p) == Indices(h, p) + if f.id == p then {f.index} else {}
  {
    var g := h + [f];
    assert g[..|h|] == h && g[|h|] == f;
    assert forall k :: 0 <= k < |h| ==> h[k] == g[k];
    assert Carries(h, p, parts, location);
    IndicesBelow(h, p, parts, location);
  }

  /** The packet is pending in `c`, with only ids from `ids` ahead of it. */
  ghost predicate PendingIn(c: Cache, p: u16, parts: seq<seq<byte>>, location: Location, s: set<nat>, ids: set<u16>) {
    exists ahead, e, behind ::
      c == ahead + [e] + behind && Pending(e, p, parts, location, s) && IdsWithin(ahead, ids)
  }

  lemma PendingByWitness(c: Cache, ahead: Cache, e: Entry, behind: Cache,
                         p: u16, parts: seq<seq<byte>>, location: Location, s: set<nat>, ids: set<u16>)
    requires c == ahead + [e] + behind && Pending(e, p, parts, location, s) && IdsWithin(ahead, ids)
    ensures PendingIn(c, p, parts, location, s, ids)
  {
  }

  /** What the packet's next fragment leads to. */
  ghost predicate Heard(r: Accepted, f: Fragment, parts: seq<seq<byte>>, s: set<nat>) {
    if |s| == |parts| then r.outcome == Complete(Flatten(parts), f.location) && !Contains(r.cache, f.id)
    else r.outcome == Stored && PendingIn(r.cache, f.id, parts, f.location, s, {})
  }

  lemma HeardAt(ahead: Cache, e: Entry, behind: Cache, f: Fragment, parts: seq<seq<byte>>, s: set<nat>)
    requires CacheOk(ahead + [e] + behind)
    requires Pending(e, f.id, parts, f.location, s) && forall i :: i in s ==> i < |parts|
    requires f.count == |parts| && f.index < |parts| && f.index !in s && f.data == parts[f.index]
    ensures Heard(Accept(ahead + [e] + behind, f), f, parts, s + {f.index})
  {
    hide Accept, CacheOk, Flatten, Pending, Contains, PendingIn;
    var e' := NextArrives(ahead, e, behind, f, parts, s);
    var rest := ahead + behind;
    PendingByWitness([e'] + rest, [], e', rest, f.id, parts, f.location, s + {f.index}, {});
  }

  lemma PendingHearsOwn(c: Cache, f: Fragment, parts: seq<seq<byte>>, s: set<nat>, ids: set<u16>)
    requires CacheOk(c) && PendingIn(c, f.id, parts, f.location, s, ids) && forall i :: i in s ==> i < |parts|
    requires f.count == |parts| && f.index < |parts| && f.index !in s && f.data == parts[f.index]
    ensures Heard(Accept(c, f), f, parts, s + {f.index})
  {
    hide Accept, CacheOk, Pending, Heard;
    var ahead, e, behind :| c == ahead + [e] + behind && Pending(e, f.id, parts, f.location, s) &&
        IdsWithin(ahead, ids);
    HeardAt(ahead, e, behind, f, parts, s);
  }

  lemma PendingHearsOther(c: Cache, f: Fragment, p: u16, parts: seq<seq<byte>>, location: Location, s: set<nat>,
                          ids: set<u16>)
    requires CacheOk(c) && PendingIn(c, p, parts, location, s, ids) && f.id != p
    requires Accept(c, f).outcome.Stored? ==> |ids + {f.id}| < 256
    ensures PendingIn(Accept(c, f).cache, p, parts, location, s, Since(ids, f, Accept(c, f).outcome))
  {
    hide Accept, CacheOk, SlotsOf;
    var ahead, e, behind :| c == ahead + [e] + behind && Pending(e, p, parts, location, s) && IdsWithin(ahead, ids);
    var ahead', behind' := OtherArrives(ahead, e, behind, f, ids);
    PendingByWitness(Accept(c, f).cache, ahead', e, behind', p, parts, location, s,
                     Since(ids, f, Accept(c, f).outcome));
  }

  /** One more arrival keeps the account, and leads to what it should. */
  lemma StandsStep(c: Cache, h: seq<Fragment>, f: Fragment, p: u16, parts: seq<seq<byte>>, location: Location,
                   ids: set<u16>)
    requires CacheOk(c) && Stands(c, h, p, parts, location, ids)
    requires Carries(h + [f], p, parts, location) && 2 <= |parts|
    requires f.id != p && Indices(h, p) != {} && Accept(c, f).outcome.Stored? ==>
               |ids + {f.id}| < 256
    ensures Stands(Accept(c, f).cache, h + [f], p, parts, location,
                   if f.id == p then {} else Since(ids, f, Accept(c, f).outcome))
    ensures f.id == p ==>
              Accept(c, f).outcome ==
              if |Indices(h + [f], p)| == |parts| then Complete(Flatten(parts), location) else Stored
  {
    hide Accept, CacheOk, Flatten, PendingIn, Contains, Carries, Indices, Pending;
    var s := Indices(h, p);
    CarriesNew(h, f, p, parts, location);
    if f.id == p {
      FullSet(s, |parts|);
      if s == {} {
        var e, behind := FirstArrives(c, f, parts);
        assert s + {f.index} == {f.index};
        PendingByWitness([e] + behind, [], e, behind, p, parts, location, {f.index}, {});
      } else {
        PendingHearsOwn(c, f, parts, s, ids);
      }
    } else {
      assert s + {} == s;
      if s == {} || |s| == |parts| {
        OtherLeavesAbsent(c, f, p);
      } else {
        PendingHearsOther(c, f, p, parts, location, s, ids);
      }
    }
  }

  lemma OtherLeavesAbsent(c: Cache, f: Fragment, p: u16)
    requires !Contains(c, p) && f.id != p
    ensures !Contains(Accept(c, f).cache, p)
  {
    hide Joined, Refresh;
    var c' := Accept(c, f).cache;
    if Contains(c', p) {
      EntriesAfter(c, f, c'[IndexOf(c', p)]);
    }
  }

  lemma {:induction false} StandsRun(c0: Cache, h: seq<Fragment>, p: u16, parts: seq<seq<byte>>, location: Location)
    requires CacheOk(c0) && !Contains(c0, p) && 2 <= |parts|
    requires Carries(h, p, parts, location) && Steady(c0, h, p)
    ensures Stands(After(c0, h), h, p, parts, location, OthersSince(c0, h, p))
  {
    hide Stands, Carries, CacheOk, Accept, Indices;
    if h == [] {
      StandsAtFirst(c0, p, parts, location);
    } else {
      var before, f := h[..|h| - 1], h[|h| - 1];
      Prefix(c0, h, |h| - 1, p, parts, location);
      StandsRun(c0, before, p, parts, location);
      RunKeeps(c0, before);
      assert h == before + [f] && h[..|h|] == h;
      if f.id != p {
        OthersNew(c0, h, p);
      }
      StandsStep(After(c0, before), before, f, p, parts, location, OthersSince(c0, before, p));
    }
  }

  /** With no fragment of `p` last, its indices are as before and the others have heard from one more. */
  lemma OthersNew(c0: Cache, h: seq<Fragment>, p: u16)
    requires h != [] && h[|h| - 1].id != p
    ensures var before, f := h[..|h| - 1], h[|h| - 1];
            && Indices(h, p) == Indices(before, p)
            && OthersSince(c0, h, p) == Since(OthersSince(c0, before, p), f, Accept(After(c0, before), f).outcome)
  {
    hide Accept, Since;
  }

  lemma StandsAtFirst(c0: Cache, p: u16, parts: seq<seq<byte>>, location: Location)
    requires !Contains(c0, p)
    ensures Stands(c0, [], p, parts, location, {})
  {
  }

  lemma Prefix(c0: Cache, h: seq<Fragment>, n: nat, p: u16, parts: seq<seq<byte>>, location: Location)
    requires n <= |h| && Carries(h, p, parts, location)
    ensures Carries(h[..n], p, parts, location) && (Steady(c0, h, p) ==> Steady(c0, h[..n], p))
  {
    hide Indices, OthersSince;
    assert forall k :: 0 <= k <= n ==> h[..n][..k] == h[..k];
  }

  /**
   Let a packet be split into two or more parts and its fragments arrive in any order, each once, mixed with fragments
   of other packets, never more than 255 others used since one of its own being in the cache before its next. Starting
   from any cache that does not know its id, every fragment of it is stored except the one that makes the set whole;
   that one completes the packet, with exactly the original payload.
   */
  lemma DeliveredOnce(c0: Cache, h: seq<Fragment>, p: u16, parts: seq<seq<byte>>, location: Location, k: nat)
    requires CacheOk(c0) && !Contains(c0, p) && 2 <= |parts|
    requires Carries(h, p, parts, location) && Calm(c0, h, p)
    requires k < |h| && h[k].id == p
    ensures OutcomeAt(c0, h, k) ==
            if |Indices(h[..k + 1], p)| == |parts| then Complete(Flatten(parts), location) else Stored
  {
    hide Stands, Carries, CacheOk, Accept;
    Prefix(c0, h, k, p, parts, location);
    Prefix(c0, h, k + 1, p, parts, location);
    CalmIsSteady(c0, h, k, p);
    StandsRun(c0, h[..k], p, parts, location);
    RunKeeps(c0, h[..k]);
    assert h[..k + 1] == h[..k] + [h[k]];
    StandsStep(After(c0, h[..k]), h[..k], h[k], p, parts, location, OthersSince(c0, h[..k], p));
  }

  /** The set becomes whole at the last of the packet's fragments, and only there. */
  lemma WholeAtLast(h: seq<Fragment>, p: u16, parts: seq<seq<byte>>, location: Location, k: nat)
    requires Carries(h, p, parts, location) && |Indices(h, p)| == |parts|
    requires k < |h| && h[k].id == p
    ensures |Indices(h[..k + 1], p)| == |parts| <==> forall j :: k < j < |h| ==> h[j].id != p
  {
    hide Indices;
    var early := h[..k + 1];
    assert Carries(early, p, parts, location);
    IndicesBelow(h, p, parts, location);
    IndicesBelow(early, p, parts, location);
    FullSet(Indices(h, p), |parts|);
    FullSet(Indices(early, p), |parts|);
    if j :| k < j < |h| && h[j].id == p {
      assert forall m :: 0 <= m <= k && h[m].id == p ==> early[m].index != h[j].index;
      assert h[j].index !in Indices(early, p);
    }
    if forall j :: k < j < |h| ==> h[j].id != p {
      SameIndices(h, k + 1, p);
    }
  }

  lemma {:induction false} SameIndices(h: seq<Fragment>, n: nat, p: u16)
    requires n <= |h| && forall j :: n <= j < |h| ==> h[j].id != p
    ensures Indices(h[..n], p) == Indices(h, p)
  {
    if n == |h| {
      assert h[..n] == h;
    } else {
      assert h[..|h| - 1][..n] == h[..n];
      SameIndices(h[..|h| - 1], n, p);
    }
  }

  // ----- the bound is exact -----

  function IdsOf(c: Cache): set<u16> {
    set i | 0 <= i < |c| :: c[i].id
  }

  /** `p` is in the cache with exactly the ids of `ids` ahead of it. */
  ghost predicate Behind(c: Cache, p: u16, ids: set<u16>) {
    |ids| < |c| && c[|ids|].id == p && IdsOf(c[..|ids|]) == ids
  }

  lemma StoredIds(c: Cache, f: Fragment)
    requires Accept(c, f).outcome.Stored?
    ensures var r, q := Accept(c, f).cache, Refresh(c, f);
            f.count >= 2 && |r| == |q| && forall i :: 0 <= i < |r| ==> r[i].id == q[i].id
  {
    hide Refresh, Joined;
  }

  lemma SameIds(r: Cache, q: Cache, p: u16, ids: set<u16>)
    requires |r| == |q| && forall i :: 0 <= i < |r| ==> r[i].id == q[i].id
    requires Behind(q, p, ids)
    ensures Behind(r, p, ids)
  {
    assert forall i :: 0 <= i < |ids| ==> r[..|ids|][i].id == q[..|ids|][i].id;
  }

  /** Using the packet at `j` moves those before it back by one, and no others. */
  lemma RefreshMoves(c: Cache, j: nat, f: Fragment)
    requires Distinct(c) && j < |c| && c[j].id == f.id
    ensures var r := Refresh(c, f);
            |r| == |c| && forall i :: 0 <= i < |c| ==> r[i] == c[if i == 0 then j else if i <= j then i - 1 else i]
  {
    assert IndexOf(c, f.id) == j;
  }

  /** A packet ahead of `p` that is used again stays ahead of it. */
  lemma TouchAhead(c: Cache, p: u16, ids: set<u16>, f: Fragment)
    requires Distinct(c) && Behind(c, p, ids) && f.id in ids
    ensures Behind(Refresh(c, f), p, ids)
  {
    hide Refresh;
    var n := |ids|;
    var j :| 0 <= j < n && c[..n][j].id == f.id;
    var r := Refresh(c, f);
    RefreshMoves(c, j, f);
    forall i | 0 <= i < n
      ensures c[i].id in IdsOf(r[..n])
    {
      var k := if i == j then 0 else if i < j then i + 1 else i;
      assert r[..n][k] == c[i];
    }
    forall i | 0 <= i < n
      ensures r[i].id in ids
    {
      var k := if i == 0 then j else if i <= j then i - 1 else i;
      assert c[..n][k].id in IdsOf(c[..n]);
    }
  }

  /** A packet that is not among the first moves them back by one. */
  lemma RefreshShifts(c: Cache, n: nat, f: Fragment)
    requires n < |c| <= 256 && forall i :: 0 <= i <= n ==> c[i].id != f.id
    ensures var r := Refresh(c, f);
            && r[0].id == f.id && |c| <= |r| <= 256
            && (n < 255 ==> n + 1 < |r|)
            && forall i :: 0 < i <= n + 1 && i < |r| ==> r[i] == c[i - 1]
  {
    hide Begun;
    var j := IndexOf(c, f.id);
    if Contains(c, f.id) {
      assert n < j;
    }
  }

  lemma NotAhead(c: Cache, p: u16, ids: set<u16>, id: u16)
    requires Behind(c, p, ids) && id !in ids && id != p
    ensures forall i :: 0 <= i <= |ids| ==> c[i].id != id
  {
    var n := |ids|;
    forall i | 0 <= i < n
      ensures c[i].id != id
    {
      assert c[..n][i].id in IdsOf(c[..n]);
    }
  }

  /** One that was not moves ahead of it. */
  lemma MoveAhead(c: Cache, p: u16, ids: set<u16>, f: Fragment)
    requires |c| <= 256 && Behind(c, p, ids) && f.id !in ids && f.id != p
    requires |ids| < 255
    ensures Behind(Refresh(c, f), p, ids + {f.id})
  {
    hide Refresh;
    var r, n := Refresh(c, f), |ids|;
    NotAhead(c, p, ids, f.id);
    RefreshShifts(c, n, f);
    assert r[..n + 1] == [r[0]] + c[..n];
    IdsOfFirst(r[0], c[..n]);
  }

  /** Once 255 are ahead of it, that pushes it out. */
  lemma PushOut(c: Cache, p: u16, ids: set<u16>, f: Fragment)
    requires |c| <= 256 && Distinct(c) && Behind(c, p, ids) && f.id !in ids && f.id != p
    requires |ids| == 255
    ensures forall i :: 0 <= i < |Refresh(c, f)| ==> Refresh(c, f)[i].id != p
  {
    hide Refresh;
    NotAhead(c, p, ids, f.id);
    RefreshShifts(c, |ids|, f);
  }

  lemma IdsOfFirst(e: Entry, c: Cache)
    ensures IdsOf([e] + c) == IdsOf(c) + {e.id}
  {
    var d := [e] + c;
    assert forall i :: 0 <= i < |c| ==> d[i + 1] == c[i];
    assert d[0].id in IdsOf(d);
  }

  lemma CacheDistinct(c: Cache)
    requires CacheOk(c)
    ensures Distinct(c) && |c| <= 256
  {
  }

  /** A packet ahead of `p` that leaves the cache. */
  lemma BehindDrop(q: Cache, p: u16, ids: set<u16>, id: u16)
    requires Distinct(q) && Behind(q, p, ids) && q[0].id == id && id in ids
    ensures Behind(q[1..], p, ids - {id})
  {
    var n := |ids|;
    var ahead := q[1..][..n - 1];
    assert |ids - {id}| == n - 1;
    assert ahead == q[..n][1..];
    forall i | 0 <= i < |ahead|
      ensures ahead[i].id in ids - {id}
    {
      assert q[..n][i + 1].id in IdsOf(q[..n]);
    }
    forall x | x in ids - {id}
      ensures x in IdsOf(ahead)
    {
      var i :| 0 <= i < n && q[..n][i].id == x;
      assert ahead[i - 1].id == x;
    }
  }

  /** `p` is in the cache behind exactly these, unless they are too many. */
  ghost predicate Standing(c: Cache, p: u16, ids: set<u16>) {
    if |ids| < 256 then Behind(c, p, ids) else !Contains(c, p)
  }

  lemma StoredStep(c: Cache, p: u16, ids: set<u16>, f: Fragment)
    requires CacheOk(c) && Behind(c, p, ids) && f.id != p && Accept(c, f).outcome.Stored?
    requires |ids| < 256
    ensures Standing(Accept(c, f).cache, p, ids + {f.id})
  {
    hide Accept, Refresh, Behind, CacheOk, EntryOk;
    var r, q := Accept(c, f).cache, Refresh(c, f);
    StoredIds(c, f);
    CacheDistinct(c);
    if f.id in ids {
      assert ids + {f.id} == ids;
      TouchAhead(c, p, ids, f);
      SameIds(r, q, p, ids);
    } else {
      if |ids| < 255 {
        MoveAhead(c, p, ids, f);
        SameIds(r, q, p, ids + {f.id});
      } else {
        PushOut(c, p, ids, f);
      }
    }
  }

  lemma RemovedStep(c: Cache, p: u16, ids: set<u16>, f: Fragment)
    requires CacheOk(c) && Behind(c, p, ids) && f.id != p && f.count >= 2
    requires !Accept(c, f).outcome.Stored? && !Accept(c, f).outcome.Crash?
    ensures Behind(Accept(c, f).cache, p, ids - {f.id})
  {
    hide Accept, Refresh, Behind, CacheOk, EntryOk, Contains;
    var q := Refresh(c, f);
    CacheDistinct(c);
    RefreshKeeps(c, f);
    CacheDistinct(q);
    RemovedCache(c, f);
    if !Contains(c, f.id) {
      NewIsStored(c, f);
      assert false;
    }
    if f.id in ids {
      TouchAhead(c, p, ids, f);
      BehindDrop(q, p, ids, f.id);
    } else {
      BeyondIt(c, p, ids, f.id);
      MoveAhead(c, p, ids, f);
      BehindDrop(q, p, ids + {f.id}, f.id);
      assert ids + {f.id} - {f.id} == ids == ids - {f.id};
    }
  }

  lemma RemovedCache(c: Cache, f: Fragment)
    requires f.count >= 2 && !Accept(c, f).outcome.Stored? && !Accept(c, f).outcome.Crash?
    ensures Accept(c, f).cache == Refresh(c, f)[1..]
  {
    hide Refresh, Joined;
  }

  /** A packet in the cache that is not ahead of `p` is behind it, so there is room for it. */
  lemma BeyondIt(c: Cache, p: u16, ids: set<u16>, id: u16)
    requires |c| <= 256 && Behind(c, p, ids) && id !in ids && id != p && Contains(c, id)
    ensures |ids| < 255
  {
    NotAhead(c, p, ids, id);
    assert c[IndexOf(c, id)].id == id;
  }

  lemma StandingStep(c: Cache, p: u16, ids: set<u16>, f: Fragment)
    requires CacheOk(c) && Behind(c, p, ids) && |ids| < 256 && f.id != p
    ensures Standing(Accept(c, f).cache, p, Since(ids, f, Accept(c, f).outcome))
  {
    hide Behind, CacheOk, Contains, Refresh, Joined;
    if Accept(c, f).outcome.Stored? {
      StoredStep(c, p, ids, f);
    } else if f.count >= 2 && !Accept(c, f).outcome.Crash? {
      RemovedStep(c, p, ids, f);
      FewerIds(ids, f.id);
    }
  }

  lemma FewerIds(ids: set<u16>, id: u16)
    ensures |ids - {id}| <= |ids|
  {
    if id !in ids {
      assert ids - {id} == ids;
    }
  }

  /** From one fragment of `p` on, never more than 255 other packets used since are in the cache. */
  ghost predicate NeverTooMany(c: Cache, h: seq<Fragment>, p: u16) {
    forall j :: 0 <= j <= |h| ==> |OthersSince(c, h[..j], p)| < 256
  }

  lemma {:induction false} StandingRun(c: Cache, h: seq<Fragment>, p: u16)
    requires CacheOk(c) && c != [] && c[0].id == p && forall k :: 0 <= k < |h| ==> h[k].id != p
    ensures if NeverTooMany(c, h, p) then Behind(After(c, h), p, OthersSince(c, h, p)) else !Contains(After(c, h), p)
  {
    hide Accept, CacheOk, Behind, OthersSince, Contains, Since;
    assert h[..|h|] == h;
    if h == [] {
      StandingFirst(c, p);
      assert NeverTooMany(c, h, p);
    } else {
      var n := |h| - 1;
      var before, f := h[..n], h[n];
      assert forall j :: 0 <= j <= n ==> before[..j] == h[..j];
      StandingRun(c, before, p);
      RunKeeps(c, before);
      OthersNew(c, h, p);
      if NeverTooMany(c, before, p) {
        assert before[..n] == before;
        StandingStep(After(c, before), p, OthersSince(c, before, p), f);
      } else {
        OtherLeavesAbsent(After(c, before), f, p);
      }
    }
  }

  lemma StandingFirst(c: Cache, p: u16)
    requires c != [] && c[0].id == p
    ensures Behind(c, p, {}) && OthersSince(c, [], p) == {}
  {
    assert c[..0] == [];
  }

  /**
   The exact bound: from a packet's own fragment on, through any run of other packets' fragments, the packet is still
   there if and only if at no time more than 255 other packets used since are in the cache.
   */
  lemma SurvivesIff(c: Cache, h: seq<Fragment>, p: u16)
    requires CacheOk(c) && c != [] && c[0].id == p && forall k :: 0 <= k < |h| ==> h[k].id != p
    ensures Contains(After(c, h), p) <==> NeverTooMany(c, h, p)
  {
    hide CacheOk, After, OthersSince;
    StandingRun(c, h, p);
    if NeverTooMany(c, h, p) {
      BehindIsThere(After(c, h), p, OthersSince(c, h, p));
    }
  }

  lemma BehindIsThere(c: Cache, p: u16, ids: set<u16>)
    requires Behind(c, p, ids)
    ensures Contains(c, p)
  {
  }

  lemma {:induction false} StaysAbsent(c: Cache, h: seq<Fragment>, id: u16)
    requires !Contains(c, id) && forall k :: 0 <= k < |h| ==> h[k].id != id
    ensures !Contains(After(c, h), id)
  {
    if h != [] {
      StaysAbsent(c, h[..|h| - 1], id);
      OtherLeavesAbsent(After(c, h[..|h| - 1]), h[|h| - 1], id);
    }
  }

  /** Fragments of new packets, each the first of its own. */
  ghost predicate Newcomers(c: Cache, h: seq<Fragment>) {
    && (forall k :: 0 <= k < |h| ==> h[k].count >= 2 && h[k].index < h[k].count && !Contains(c, h[k].id))
    && (forall j, k :: 0 <= j < k < |h| ==> h[j].id != h[k].id)
  }

  /** Newcomers fill the cache from the front, latest first. */
  lemma {:induction false} NewcomersInFront(c: Cache, h: seq<Fragment>)
    requires CacheOk(c) && Newcomers(c, h) && |h| <= 256
    ensures var r := After(c, h);
            |h| <= |r| && forall j :: 0 <= j < |h| ==> r[j].id == h[|h| - 1 - j].id
  {
    hide Accept, CacheOk;
    if h != [] {
      var before, f := h[..|h| - 1], h[|h| - 1];
      NewcomersInFront(c, before);
      StaysAbsent(c, before, f.id);
      NewcomerArrives(After(c, before), f);
    }
  }

  lemma NewcomerArrives(c: Cache, f: Fragment)
    requires !Contains(c, f.id) && 2 <= f.count && f.index < f.count
    ensures var r := Accept(c, f).cache;
            && r != [] && r[0].id == f.id
            && |r| == (if |c| < 256 then |c| + 1 else 256)
            && forall j :: 0 < j < |r| ==> r[j] == c[j - 1]
  {
    hide Joined, IndexOf;
    FilledNone(f.count);
  }

  /** With 256 other packets begun in between, a pending packet is gone: its next fragment starts it afresh. */
  lemma EvictedAfter256(c: Cache, h: seq<Fragment>, p: u16, f: Fragment, parts: seq<seq<byte>>)
    requires CacheOk(c) && Contains(c, p) && Newcomers(c, h) && |h| == 256
    requires f.id == p && 2 <= |parts| == f.count && f.index < |parts| && f.data == parts[f.index]
    ensures !Contains(After(c, h), p)
    ensures Accept(After(c, h), f).outcome == Stored
  {
    hide Accept, After;
    NewcomersInFront(c, h);
    RunKeeps(c, h);
    var r := After(c, h);
    assert forall i :: 0 <= i < |r| ==> r[i].id == h[|h| - 1 - i].id;
    var e, behind := FirstArrives(r, f, parts);
  }
}
