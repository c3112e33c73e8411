/** Rebuilding UDP packets from fragments in any order, in a least-recently-used cache of partial packets. */
module Reassembly {
  import opened Bytes

  const MAX_FRAGMENT_CACHE_SIZE: nat := 256

  /** Where a packet goes: the address text of its header, compared only for equality. */
  type Location = seq<byte>

  datatype Fragment = Fragment(id: u16, index: u8, count: u8, data: seq<byte>, location: Location)

  type Slots = seq<Option<seq<byte>>>

  /** A packet in the making. */
  datatype Entry = Entry(id: u16, count: u8, received: nat, length: nat, slots: Slots, location: Location)

  /** The cache, most recently used first. */
  type Cache = seq<Entry>

  datatype Outcome =
    | Ignored
    | Stored
    | Mismatched
    | Duplicate
    | Crash
    | Complete(payload: seq<byte>, location: Location)

  datatype Accepted = Accepted(cache: Cache, outcome: Outcome)

  // ----- the cache -----

  function IndexOf(c: Cache, id: u16): (i: nat)
    ensures i <= |c| && (i < |c| ==> c[i].id == id)
    ensures forall j :: 0 <= j < i ==> c[j].id != id
  {
    if c == [] || c[0].id == id then 0 else 1 + IndexOf(c[1..], id)
  }

  predicate Contains(c: Cache, id: u16) {
    IndexOf(c, id) < |c|
  }

  /** `put` of an id that is not there: the least recently used entry makes room. */
  function Put(c: Cache, e: Entry): Cache {
    [e] + if |c| < MAX_FRAGMENT_CACHE_SIZE then c else c[..MAX_FRAGMENT_CACHE_SIZE - 1]
  }

  /** `get_mut`: the entry becomes the most recently used. */
  function Touch(c: Cache, id: u16): (r: Cache)
    requires Contains(c, id)
    ensures |r| == |c| && r[0].id == id
  {
    var i := IndexOf(c, id);
    [c[i]] + c[..i] + c[i + 1..]
  }

  /** The cache once the entry for `f` is at hand, created if need be. */
  function Refresh(c: Cache, f: Fragment): (r: Cache)
    ensures r != [] && r[0].id == f.id
  {
    if Contains(c, f.id) then Touch(c, f.id)
    else Put(c, Begun(f))
  }

  /** A packet none of whose fragments is there yet. */
  function Begun(f: Fragment): Entry {
    Entry(f.id, f.count, 0, 0, seq(f.count, _ => None), f.location)
  }

  // ----- a fragment arrives -----

  function Joined(slots: Slots): seq<byte> {
    if slots == [] then []
    else (if slots[0].Some? then slots[0].value else []) + Joined(slots[1..])
  }

  /** The reassembly part of the datagram loop. */
  function Accept(c: Cache, f: Fragment): Accepted {
    if f.count == 0 then Accepted(c, Ignored)
    else if f.count == 1 then Accepted(c, Complete(f.data, f.location))
    else
      var r := Refresh(c, f);
      var e, rest := r[0], r[1..];
      if e.count != f.count then Accepted(rest, Mismatched)
      else if f.index >= |e.slots| then Accepted(c, Crash)
      else if e.slots[f.index].Some? then Accepted(rest, Duplicate)
      else
        var e' := Fill(e, f);
        if e'.received != e'.count then Accepted([e'] + rest, Stored)
        else Accepted(rest, Complete(Joined(e'.slots), e'.location))
  }

  function Fill(e: Entry, f: Fragment): Entry
    requires f.index < |e.slots|
  {
    e.(received := e.received + 1, length := e.length + |f.data|, slots := e.slots[f.index := Some(f.data)])
  }

  // ----- what every stored packet keeps -----

  function Filled(slots: Slots): nat {
    if slots == [] then 0 else (if slots[0].Some? then 1 else 0) + Filled(slots[1..])
  }

  ghost predicate EntryOk(e: Entry) {
    && 2 <= e.count == |e.slots|
    && e.received == Filled(e.slots) < e.count
    && e.length == |Joined(e.slots)|
  }

  ghost predicate Distinct(c: Cache) {
    forall i, j :: 0 <= i < j < |c| ==> c[i].id != c[j].id
  }

  ghost predicate CacheOk(c: Cache) {
    && |c| <= 256
    && Distinct(c)
    && forall i :: 0 <= i < |c| ==> EntryOk(c[i])
  }

  /** The index of a fragment lies below its count; a lone fragment's index is not looked at. */
  predicate WellFormed(f: Fragment) {
    f.count <= 1 || f.index < f.count
  }

  lemma {:induction false} FilledUpdate(slots: Slots, i: nat, d: seq<byte>)
    requires i < |slots| && slots[i].None?
    ensures Filled(slots[i := Some(d)]) == Filled(slots) + 1
    ensures |Joined(slots[i := Some(d)])| == |Joined(slots)| + |d|
  {
    var updated := slots[i := Some(d)];
    if i == 0 {
      assert updated[1..] == slots[1..];
    } else {
      assert updated[1..] == slots[1..][i - 1 := Some(d)];
      FilledUpdate(slots[1..], i - 1, d);
    }
  }

  lemma {:induction false} FilledAll(slots: Slots)
    ensures Filled(slots) <= |slots|
    ensures Filled(slots) == |slots| <==> forall i :: 0 <= i < |slots| ==> slots[i].Some?
  {
    if slots != [] {
      FilledAll(slots[1..]);
      assert forall i :: 0 < i < |slots| ==> slots[i] == slots[1..][i - 1];
    }
  }

  lemma {:induction false} FilledNone(n: nat)
    ensures Filled(seq(n, _ => None)) == 0 && Joined(seq(n, _ => None)) == []
  {
    if n > 0 {
      assert seq<Option<seq<byte>>>(n, _ => None)[1..] == seq(n - 1, _ => None);
      FilledNone(n - 1);
    }
  }

  lemma TouchKeeps(c: Cache, id: u16)
    requires CacheOk(c) && Contains(c, id)
    ensures CacheOk(Touch(c, id))
  {
    hide EntryOk;
    var r, i := Touch(c, id), IndexOf(c, id);
    forall j | 0 <= j < |r|
      ensures r[j] == c[if j == 0 then i else if j <= i then j - 1 else j]
    {
    }
  }

  lemma PutKeeps(c: Cache, e: Entry)
    requires CacheOk(c) && !Contains(c, e.id) && EntryOk(e)
    ensures CacheOk(Put(c, e))
  {
    hide EntryOk;
    var r := Put(c, e);
    forall j | 0 < j < |r|
      ensures r[j] == c[j - 1]
    {
    }
  }

  lemma RefreshKeeps(c: Cache, f: Fragment)
    requires CacheOk(c) && f.count >= 2
    ensures CacheOk(Refresh(c, f))
  {
    hide Filled, Joined, CacheOk, Contains, Touch, Put;
    if Contains(c, f.id) {
      TouchKeeps(c, f.id);
    } else {
      FilledNone(f.count);
      PutKeeps(c, Begun(f));
    }
  }

  lemma HeadReplaced(r: Cache, e: Entry)
    requires CacheOk(r) && r != [] && e.id == r[0].id
    ensures CacheOk(r[1..])
    ensures EntryOk(e) ==> CacheOk([e] + r[1..])
  {
    hide EntryOk;
  }

  /**
   Every arrival keeps the cache in order: at most 256 packets with distinct ids, each with as many slots
   as its fragment count, a correct tally of filled slots that has not reached the count, and a correct
   length. A well-formed fragment never runs off the slots.
   */
  lemma AcceptKeeps(c: Cache, f: Fragment)
    requires CacheOk(c)
    ensures CacheOk(Accept(c, f).cache)
    ensures WellFormed(f) ==> !Accept(c, f).outcome.Crash?
  {
    hide Filled, Joined, CacheOk, Refresh;
    if f.count >= 2 {
      RefreshKeeps(c, f);
      var r := Refresh(c, f);
      HeadOk(r);
      HeadReplaced(r, r[0]);
      if r[0].count == f.count && f.index < |r[0].slots| && r[0].slots[f.index].None? {
        FilledUpdate(r[0].slots, f.index, f.data);
        FilledAll(Fill(r[0], f).slots);
        HeadReplaced(r, Fill(r[0], f));
      }
    }
  }

  /** What the cache holds under an id, or would begin with this fragment. */
  function EntryFor(c: Cache, f: Fragment): Entry {
    if Contains(c, f.id) then c[IndexOf(c, f.id)] else Begun(f)
  }

  /**
   What a fragment of a split packet leads to, told by what the cache held under its id: one that disagrees on
   the count, or repeats an index, throws the packet away; any other, a first one included, is stored, unless it
   fills the last empty slot, which completes the packet. Only a stored fragment leaves the id in the cache.
   */
  lemma OutcomeByEntry(c: Cache, f: Fragment)
    requires CacheOk(c) && 2 <= f.count && WellFormed(f)
    ensures var r, e := Accept(c, f), EntryFor(c, f);
            && |e.slots| == e.count
            && r.outcome == (
               if e.count != f.count then Mismatched
               else if e.slots[f.index].Some? then Duplicate
               else if e.received + 1 != f.count then Stored
               else Complete(Joined(e.slots[f.index := Some(f.data)]), e.location))
            && (Contains(r.cache, f.id) <==> r.outcome == Stored)
  {
    hide Filled, Joined, CacheOk, EntryOk, Refresh, EntryFor, Contains;
    RefreshHead(c, f);
    RefreshKeeps(c, f);
    FreshRest(Refresh(c, f));
  }

  /** A packet that is not split is handed on as it came, a count of none is ignored; the cache is left alone. */
  lemma UnsplitPasses(c: Cache, f: Fragment)
    ensures f.count == 1 ==> Accept(c, f) == Accepted(c, Complete(f.data, f.location))
    ensures f.count == 0 ==> Accept(c, f) == Accepted(c, Ignored)
  {
  }

  /**
   A fragment runs off the slots exactly if its index is not below its count and the cache holds nothing under its
   id, or a packet of the same count; a packet of another count is thrown away before the slots are looked at.
   */
  lemma CrashIff(c: Cache, f: Fragment)
    requires CacheOk(c)
    ensures Accept(c, f).outcome.Crash? <==>
            2 <= f.count <= f.index && (Contains(c, f.id) ==> c[IndexOf(c, f.id)].count == f.count)
  {
    hide Filled, Joined, CacheOk, Refresh;
    if f.count >= 2 {
      RefreshHead(c, f);
    }
  }

  /** A first fragment can do so. */
  lemma CrashOnFirst(id: u16, data: seq<byte>, location: Location)
    ensures Accept([], Fragment(id, 5, 2, data, location)).outcome.Crash?
  {
    CrashIff([], Fragment(id, 5, 2, data, location));
  }

  lemma RefreshHead(c: Cache, f: Fragment)
    requires CacheOk(c) && 2 <= f.count
    ensures Refresh(c, f)[0] == EntryFor(c, f) && |EntryFor(c, f).slots| == EntryFor(c, f).count
  {
    hide IndexOf;
  }

  lemma FreshRest(r: Cache)
    requires CacheOk(r) && r != []
    ensures !Contains(r[1..], r[0].id)
    ensures forall e: Entry :: e.id == r[0].id ==> Contains([e] + r[1..], r[0].id)
  {
  }

  lemma HeadOk(c: Cache)
    requires CacheOk(c) && c != []
    ensures EntryOk(c[0])
  {
  }

  // ----- runs -----

  /** The cache after the fragments `h` have arrived. */
  function After(c0: Cache, h: seq<Fragment>): Cache {
    if h == [] then c0 else Accept(After(c0, h[..|h| - 1]), h[|h| - 1]).cache
  }

  /** What the arrival of `h[k]` led to. */
  function OutcomeAt(c0: Cache, h: seq<Fragment>, k: nat): Outcome
    requires k < |h|
  {
    Accept(After(c0, h[..k]), h[k]).outcome
  }

  lemma AfterSnoc(c0: Cache, h: seq<Fragment>, k: nat)
    requires k < |h|
    ensures After(c0, h[..k + 1]) == Accept(After(c0, h[..k]), h[k]).cache
  {
    assert h[..k + 1][..k] == h[..k];
  }

  lemma {:induction false} RunKeeps(c0: Cache, h: seq<Fragment>)
    requires CacheOk(c0)
    ensures CacheOk(After(c0, h))
  {
    if h != [] {
      RunKeeps(c0, h[..|h| - 1]);
      AcceptKeeps(After(c0, h[..|h| - 1]), h[|h| - 1]);
    }
  }

  // ----- where a completed payload comes from -----

  /** When the entry for `id` now in the cache was created; `|h|` if there is none. */
  function Born(h: seq<Fragment>, id: u16): nat {
    if h == [] || !Contains(After([], h), id) then |h| else
    var before := h[..|h| - 1];
    if Contains(After([], before), id) then Born(before, id) else |h| - 1
  }

  /** The slot value `d` at `i` is the payload of a fragment that arrived at `from` or later. */
  ghost predicate Arrived(h: seq<Fragment>, from: nat, id: u16, count: u8, i: nat, d: seq<byte>) {
    exists k :: from <= k < |h| && h[k].id == id && h[k].index == i && h[k].count == count && h[k].data == d
  }

  ghost predicate SlotsArrived(h: seq<Fragment>, from: nat, e: Entry) {
    forall i :: 0 <= i < |e.slots| && e.slots[i].Some? ==> Arrived(h, from, e.id, e.count, i, e.slots[i].value)
  }

  ghost predicate History(h: seq<Fragment>) {
    var c := After([], h);
    forall j :: 0 <= j < |c| ==> SlotsArrived(h, Born(h, c[j].id), c[j])
  }

  /** The entries an arrival leaves behind are old ones, and at most the one it filled. */
  lemma EntriesAfter(c: Cache, f: Fragment, e: Entry)
    requires e in Accept(c, f).cache
    ensures e in c ||
            (Accept(c, f).outcome.Stored? && f.index < |Refresh(c, f)[0].slots| && e == Fill(Refresh(c, f)[0], f) &&
             Refresh(c, f)[0].count == f.count)
  {
    hide Filled, Joined, IndexOf;
    if f.count >= 2 {
      RefreshEntries(c, f);
    }
  }

  lemma RefreshEntries(c: Cache, f: Fragment)
    ensures var r := Refresh(c, f);
            && (forall x :: x in r[1..] ==> x in c)
            && (if Contains(c, f.id) then r[0] in c
                else r[0].slots == seq(f.count, _ => None) && r[0].count == f.count)
  {
  }

  lemma {:induction false} HistoryHolds(h: seq<Fragment>)
    ensures History(h)
  {
    if h == [] {
      NothingStored();
    } else {
      hide After, Accept, SlotsArrived, Born;
      var before, f := h[..|h| - 1], h[|h| - 1];
      HistoryHolds(before);
      AfterSnoc([], h, |before|);
      assert h[..|h|] == h && h == before + [f];
      var c := After([], h);
      forall j | 0 <= j < |c|
        ensures SlotsArrived(h, Born(h, c[j].id), c[j])
      {
        EntriesAfter(After([], before), f, c[j]);
        HistoryStep(before, f, h, c[j]);
      }
    }
  }

  lemma NothingStored()
    ensures After([], []) == []
  {
  }

  lemma HistoryStep(before: seq<Fragment>, f: Fragment, h: seq<Fragment>, e: Entry)
    requires h == before + [f] && History(before) && e in After([], h)
    requires e in After([], before) ||
             (f.index < |Refresh(After([], before), f)[0].slots| && e == Fill(Refresh(After([], before), f)[0], f) &&
              Refresh(After([], before), f)[0].count == f.count)
    ensures SlotsArrived(h, Born(h, e.id), e)
  {
    hide After, Accept, Filled, Joined;
    var c := After([], before);
    assert h[..|h| - 1] == before;
    Present(After([], h), e);
    if e in c {
      Present(c, e);
      var j :| 0 <= j < |c| && c[j] == e;
      ArrivedLater(before, f, Born(before, e.id), e);
    } else {
      var r := Refresh(c, f)[0];
      RefreshEntries(c, f);
      if Contains(c, f.id) {
        var j :| 0 <= j < |c| && c[j] == r;
        ArrivedLater(before, f, Born(before, e.id), r);
      }
      BornBound(before, e.id);
      ArrivedNow(before, f, Born(h, e.id));
    }
  }

  lemma Present(c: Cache, e: Entry)
    requires e in c
    ensures Contains(c, e.id)
  {
  }

  lemma ArrivedLater(before: seq<Fragment>, f: Fragment, from: nat, e: Entry)
    requires SlotsArrived(before, from, e)
    ensures SlotsArrived(before + [f], from, e)
  {
    forall i | 0 <= i < |e.slots| && e.slots[i].Some?
      ensures Arrived(before + [f], from, e.id, e.count, i, e.slots[i].value)
    {
      var k :| from <= k < |before| && before[k].id == e.id && before[k].index == i &&
               before[k].count == e.count && before[k].data == e.slots[i].value;
      assert (before + [f])[k] == before[k];
    }
  }

  lemma ArrivedNow(before: seq<Fragment>, f: Fragment, from: nat)
    requires from <= |before|
    ensures Arrived(before + [f], from, f.id, f.count, f.index, f.data)
  {
    assert (before + [f])[|before|] == f;
  }

  /** When the packet that `h[k]` belongs to was begun. */
  function BornFor(h: seq<Fragment>, k: nat): nat
    requires k < |h|
  {
    if Contains(After([], h[..k]), h[k].id) then Born(h[..k], h[k].id) else k
  }

  lemma {:induction false} BornBound(h: seq<Fragment>, id: u16)
    ensures Born(h, id) <= |h|
  {
    if h != [] {
      BornBound(h[..|h| - 1], id);
    }
  }

  /**
   In every run, a completed packet is the concatenation, in index order, of exactly one payload per index,
   each from a fragment of that packet id and fragment count that arrived since the packet was begun.
   */
  lemma CompletionOrigin(h: seq<Fragment>, k: nat) returns (slots: Slots)
    requires k < |h| && h[k].count >= 2 && OutcomeAt([], h, k).Complete?
    ensures |slots| == h[k].count && forall i :: 0 <= i < |slots| ==> slots[i].Some?
    ensures OutcomeAt([], h, k).payload == Joined(slots)
    ensures forall i :: 0 <= i < |slots| ==>
              Arrived(h[..k + 1], BornFor(h, k), h[k].id, h[k].count, i, slots[i].value)
  {
    hide Filled, Joined, After, Born;
    var before, f := h[..k], h[k];
    var c := After([], before);
    RunKeeps([], before);
    HistoryHolds(before);
    RefreshKeeps(c, f);
    RefreshEntries(c, f);
    var e := Refresh(c, f)[0];
    slots := Fill(e, f).slots;
    FilledUpdate(e.slots, f.index, f.data);
    FilledAll(slots);
    assert h[..k + 1] == before + [f];
    BornBound(before, f.id);
    ArrivedNow(before, f, BornFor(h, k));
    if Contains(c, f.id) {
      var j :| 0 <= j < |c| && c[j] == e;
      ArrivedLater(before, f, Born(before, e.id), e);
    }
  }

  // ----- the loop's own steps -----

  class Reassembler {
    var fragments: Cache

    constructor ()
      ensures fragments == [] && CacheOk(fragments)
    {
      fragments := [];
    }

    method Pop(id: u16)
      requires fragments != [] && fragments[0].id == id
      modifies this
      ensures fragments == old(fragments)[1..]
    {
      var i := IndexOf(fragments, id);
      fragments := fragments[..i] + fragments[i + 1..];
    }

    /**
     One datagram's fragment, step by step as the loop takes it; proved to be `Accept`. A crash ends the loop, and
     leaves no cache to speak of.
     */
    method Receive(f: Fragment) returns (outcome: Outcome)
      requires CacheOk(fragments)
      modifies this
      ensures outcome == Accept(old(fragments), f).outcome
      ensures !outcome.Crash? ==> fragments == Accept(old(fragments), f).cache && CacheOk(fragments)
    {
      hide Filled, Joined, CacheOk, IndexOf, EntryOk;
      AcceptKeeps(fragments, f);
      if f.count == 0 {
        return Ignored;
      } else if f.count == 1 {
        return Complete(f.data, f.location);
      }
      ghost var r := Refresh(fragments, f);
      if !Contains(fragments, f.id) {
        fragments := Put(fragments, Begun(f));
      } else {
        fragments := Touch(fragments, f.id);
      }
      var e := fragments[0];
      if e.count != f.count {
        Pop(f.id);
        return Mismatched;
      }
      if f.index >= |e.slots| {
        return Crash;
      }
      if e.slots[f.index].Some? {
        Pop(f.id);
        return Duplicate;
      }
      e := e.(received := e.received + 1, length := e.length + |f.data|);
      e := e.(slots := e.slots[f.index := Some(f.data)]);
      fragments := fragments[0 := e];
      assert fragments == [e] + r[1..];
      if e.received != e.count {
        return Stored;
      }
      Pop(f.id);
      var payload := Join(e.slots);
      return Complete(payload, e.location);
    }
  }

  /** The loop that appends the fragments in index order. */
  method Join(slots: Slots) returns (payload: seq<byte>)
    ensures payload == Joined(slots)
  {
    payload := [];
    for i := 0 to |slots|
      invariant payload + Joined(slots[i..]) == Joined(slots)
    {
      assert slots[i..][1..] == slots[i + 1..];
      if slots[i].Some? {
        payload := payload + slots[i].value;
      }
    }
  }
}
