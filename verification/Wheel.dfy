/**
 * The timing wheel (src/time/cc_wheel.c) and its event pool (include/cc_pool.h),
 * proved to run the plain scheduler of module Scheduler.
 *
 * An event object is named by its address, a natural number. Callbacks are
 * opaque and do not call back into the wheel; the scheduler's log records them.
 */
module Wheel {
  import opened Bytes
  import opened Arith
  import opened Filters
  import opened Scheduler

  type EventId = nat

  /** struct timeout_event, without the callback and its argument. */
  datatype Event = Event(recur: bool, delay: int, offset: nat, free: bool)

  const ResetEvent := Event(false, 0, 0, false)

  function Ids(q: seq<Entry>): (r: seq<EventId>)
    ensures |r| == |q|
  {
    seq(|q|, i requires 0 <= i < |q| => q[i].id)
  }

  predicate NoDup(s: seq<EventId>) {
    forall i, j :: 0 <= i < j < |s| ==> s[i] != s[j]
  }

  // ------------------------------------------------------------------
  // The pool
  // ------------------------------------------------------------------

  class EventPool {
    var events: seq<Event>
    var freeq: seq<EventId>
    var nfree: nat
    var nused: nat
    var nmax: nat

    ghost predicate Valid()
      reads this
    {
      && nfree == |freeq| && NoDup(freeq)
      && (forall id <- freeq :: id < |events|)
      && |events| == nfree + nused <= nmax
    }

    constructor (max: nat)
      requires max < TWO32
      ensures Valid() && freeq == [] && nused == 0 && events == []
      ensures nmax == if max > 0 then max else TWO32 - 1
    {
      events, freeq, nfree, nused := [], [], 0, 0;
      nmax := if max > 0 then max else TWO32 - 1;
    }

    /** `oom` says whether an allocation would fail. */
    method Borrow(oom: bool) returns (r: Option<EventId>)
      requires Valid()
      modifies this
      ensures Valid() && nmax == old(nmax)
      ensures r.None? <==> old(freeq) == [] && (old(nused) == nmax || oom)
      ensures r.None? ==> nused == old(nused) && freeq == old(freeq) && events == old(events)
      ensures r.Some? ==>
                && nused == old(nused) + 1
                && freeq == old(if freeq == [] then [] else freeq[1..])
                && r.value == old(if freeq == [] then |events| else freeq[0])
                && r.value !in freeq
                && |events| == old(if freeq == [] then |events| + 1 else |events|)
                && r.value < |events| && events[r.value] == Event(false, 0, 0, false)
                && forall id: EventId :: id < old(|events|) && id != r.value ==> events[id] == old(events[id])
    {
      if freeq != [] {
        assert freeq[0] in freeq && forall id <- freeq[1..] :: id in freeq;
        r := Some(freeq[0]);
        freeq := freeq[1..];
        nfree := nfree - 1;
        events := events[r.value := ResetEvent];
      } else if nfree + nused < nmax {
        if oom { return None; }
        r := Some(|events|);
        events := events + [ResetEvent];
      } else {
        return None;
      }
      nused := nused + 1;
    }

    method Return(id: EventId)
      requires Valid() && id < |events| && nused > 0
      requires id !in freeq && !events[id].free
      modifies this
      ensures Valid() && nmax == old(nmax)
      ensures freeq == [id] + old(freeq) && nused == old(nused) - 1
      ensures events == old(events)[id := old(events)[id].(free := true)]
    {
      events := events[id := events[id].(free := true)];
      freeq := [id] + freeq;
      nfree := nfree + 1;
      nused := nused - 1;
    }
  }

  // ------------------------------------------------------------------
  // Slots against the scheduler's list
  // ------------------------------------------------------------------

  /** Ticks needed to cover a delay, rounded up; a negative delay is read as an unsigned one. */
  function Offset(delay: int, tickNs: nat): nat
    requires tickNs > 0 && -(TWO64 as int) < delay
  {
    var d := if delay < 0 then delay + TWO64 else delay;
    if d == 0 then 0 else (d - 1) / tickNs + 1
  }

  /** The least number of ticks that covers the delay. */
  lemma OffsetLeast(delay: int, tickNs: nat)
    requires tickNs > 0 && -(TWO64 as int) < delay
    ensures var o, d := Offset(delay, tickNs), if delay < 0 then delay + 0x1_0000_0000_0000_0000 else delay;
            d <= o * tickNs && (o > 0 ==> (o - 1) * tickNs < d)
  {
    var d := if delay < 0 then delay + TWO64 else delay;
    if d > 0 {
      DivFacts(d - 1, tickNs);
      SuccMul((d - 1) / tickNs, tickNs);
    }
  }

  function SlotOf(q: seq<Entry>, cap: nat, j: nat): seq<Entry>
    requires cap > 0
  {
    Filter((e: Entry) => e.due % cap == j, q)
  }

  ghost predicate Slots(table: seq<seq<EventId>>, q: seq<Entry>, cap: nat)
    requires cap > 0
  {
    |table| == cap && forall j :: 0 <= j < cap ==> table[j] == Ids(SlotOf(q, cap, j))
  }

  /** Every listed event is less than one turn ahead. */
  ghost predicate Horizon(q: seq<Entry>, now: nat, cap: nat) {
    forall e <- q :: now <= e.due < now + cap && e.period < cap && (e.recur ==> e.period > 0)
  }

  /** The object of every listed event holds its fields and is outside the free list. */
  ghost predicate Carried(events: seq<Event>, freeq: seq<EventId>, q: seq<Entry>, cap: nat, tickNs: nat)
    requires cap > 0 && tickNs > 0
  {
    && (forall e <- q :: e.id < |events| && e.id !in freeq && Carries(events[e.id], e, cap, tickNs))
    && (forall a <- q, b <- q :: a.id == b.id ==> a == b)
  }

  predicate Carries(ev: Event, e: Entry, cap: nat, tickNs: nat)
    requires cap > 0 && tickNs > 0
  {
    && ev.recur == e.recur && !ev.free && ev.offset == e.due % cap
    && -(TWO64 as int) < ev.delay && Offset(ev.delay, tickNs) == e.period
  }

  lemma SlotsAppend(table: seq<seq<EventId>>, q: seq<Entry>, cap: nat, e: Entry)
    requires cap > 0 && Slots(table, q, cap)
    ensures var j := e.due % cap; Slots(table[j := table[j] + [e.id]], q + [e], cap)
  {
    forall j | 0 <= j < cap
      ensures Ids(SlotOf(q + [e], cap, j)) == Ids(SlotOf(q, cap, j)) + if e.due % cap == j then [e.id] else []
    {
      FilterAppend((e: Entry) => e.due % cap == j, q, e);
    }
  }

  /** The current slot holds exactly what is due now. */
  lemma SlotIsDue(q: seq<Entry>, now: nat, cap: nat)
    requires cap > 0 && Horizon(q, now, cap)
    ensures SlotOf(q, cap, now % cap) == DueAt(q, now)
  {
    forall e <- q ensures e.due % cap == now % cap <==> e.due == now {
      ModAddCases(now, e.due - now, cap);
    }
    FilterSame((e: Entry) => e.due % cap == now % cap, (e: Entry) => e.due == now, q);
  }

  /** The other slots are not touched by what is due now. */
  lemma SlotKept(q: seq<Entry>, now: nat, cap: nat, j: nat)
    requires cap > 0 && j != now % cap
    ensures SlotOf(NotDueAt(q, now), cap, j) == SlotOf(q, cap, j)
  {
    FilterFilter((e: Entry) => e.due % cap == j, (e: Entry) => e.due != now, (e: Entry) => e.due % cap == j, q);
  }

  // ------------------------------------------------------------------
  // Removal
  // ------------------------------------------------------------------

  function Drop(s: seq<EventId>, id: EventId): seq<EventId> { Filter((x: EventId) => x != id, s) }

  lemma {:induction false} IdsWithout(q: seq<Entry>, serial: nat, id: EventId)
    requires forall x <- q :: x.serial == serial <==> x.id == id
    ensures Ids(Without(q, serial)) == Drop(Ids(q), id)
  {
    if q != [] {
      var init, last := q[..|q| - 1], q[|q| - 1];
      IdsWithout(init, serial, id);
      assert Ids(q) == Ids(init) + [last.id];
      FilterAppend((x: EventId) => x != id, Ids(init), last.id);
      if last.serial != serial { assert Without(q, serial) == Without(init, serial) + [last]; }
    }
  }

  lemma SlotWithout(q: seq<Entry>, cap: nat, j: nat, serial: nat, id: EventId)
    requires cap > 0
    requires forall x <- q :: x.serial == serial <==> x.id == id
    ensures Ids(SlotOf(Without(q, serial), cap, j)) == Drop(Ids(SlotOf(q, cap, j)), id)
  {
    var slot := (e: Entry) => e.due % cap == j;
    var keep := (e: Entry) => e.serial != serial;
    var both := (e: Entry) => e.due % cap == j && e.serial != serial;
    FilterFilter(slot, keep, both, q);
    FilterFilter(keep, slot, both, q);
    IdsWithout(SlotOf(q, cap, j), serial, id);
  }

  lemma SlotsWithout(table: seq<seq<EventId>>, q: seq<Entry>, cap: nat, e: Entry)
    requires cap > 0 && Slots(table, q, cap) && e in q
    requires forall x <- q :: x.serial == e.serial <==> x.id == e.id
    requires Distinct(q)
    ensures var j := e.due % cap; Slots(table[j := Drop(table[j], e.id)], Without(q, e.serial), cap)
  {
    forall j | 0 <= j < cap
      ensures Ids(SlotOf(Without(q, e.serial), cap, j)) == if e.due % cap == j then Drop(table[j], e.id) else table[j]
    {
      SlotWithout(q, cap, j, e.serial, e.id);
      if e.due % cap != j {
        forall x <- SlotOf(q, cap, j) ensures x.id != e.id { if x.id == e.id { SameSerial(q, x, e); } }
        DropNone(Ids(SlotOf(q, cap, j)), e.id);
      }
    }
  }

  lemma {:induction false} DropNone(s: seq<EventId>, id: EventId)
    requires id !in s
    ensures Drop(s, id) == s
  {
    if s != [] { DropNone(s[..|s| - 1], id); }
  }

  lemma {:induction false} WithoutLength(q: seq<Entry>, e: Entry)
    requires Distinct(q) && e in q
    ensures |Without(q, e.serial)| == |q| - 1
  {
    var init, last := q[..|q| - 1], q[|q| - 1];
    if last == e {
      FilterAll((x: Entry) => x.serial != e.serial, init);
    } else {
      assert e in init && last.serial != e.serial by {
        if last.serial == e.serial { SameSerial(q, last, e); }
      }
      WithoutLength(init, e);
    }
  }

  lemma DropHead(s: seq<EventId>)
    requires s != [] && NoDup(s)
    ensures Drop(s, s[0]) == s[1..]
  {
    assert s == [s[0]] + s[1..];
    FilterConcat((x: EventId) => x != s[0], [s[0]], s[1..]);
    FilterAppend((x: EventId) => x != s[0], [], s[0]);
    assert [] + [s[0]] == [s[0]];
    DropNone(s[1..], s[0]);
  }

  // ------------------------------------------------------------------
  // Inside a tick
  // ------------------------------------------------------------------

  /** What stays listed after the first `i` of the due events were handled. */
  function Kept(q: seq<Entry>, now: nat, endmode: bool, i: nat): seq<Entry>
    requires i <= |DueAt(q, now)|
  {
    NotDueAt(q, now) + if endmode then [] else Rearm(DueAt(q, now)[..i], now)
  }

  /** The slots after the first `i` due events: these left the current one, the recurring ones for another. */
  ghost predicate MidSlots(table: seq<seq<EventId>>, q: seq<Entry>, now: nat, cap: nat, endmode: bool, i: nat)
    requires cap > 0
  {
    && |table| == cap && i <= |DueAt(q, now)|
    && (forall j :: 0 <= j < cap && j != now % cap ==> table[j] == Ids(SlotOf(Kept(q, now, endmode, i), cap, j)))
    && table[now % cap] == Ids(DueAt(q, now))[i..]
  }

  ghost predicate MidCarried(events: seq<Event>, freeq: seq<EventId>,
                             q: seq<Entry>, now: nat, cap: nat, tickNs: nat, endmode: bool, i: nat)
    requires cap > 0 && tickNs > 0
  {
    && i <= |DueAt(q, now)|
    && Carried(events, freeq, Kept(q, now, endmode, i) + DueAt(q, now)[i..], cap, tickNs)
  }

  lemma CarriedSubset(events: seq<Event>, freeq: seq<EventId>, a: seq<Entry>, b: seq<Entry>, cap: nat, tickNs: nat)
    requires cap > 0 && tickNs > 0 && Carried(events, freeq, a, cap, tickNs)
    requires forall e <- b :: e in a
    ensures Carried(events, freeq, b, cap, tickNs)
  {}

  lemma MidStart(table: seq<seq<EventId>>, events: seq<Event>, freeq: seq<EventId>,
                 q: seq<Entry>, now: nat, cap: nat, tickNs: nat, endmode: bool)
    requires cap > 0 && tickNs > 0 && Horizon(q, now, cap) && Slots(table, q, cap)
    requires Carried(events, freeq, q, cap, tickNs)
    ensures MidSlots(table, q, now, cap, endmode, 0)
    ensures MidCarried(events, freeq, q, now, cap, tickNs, endmode, 0)
  {
    SlotIsDue(q, now, cap);
    assert Kept(q, now, endmode, 0) == NotDueAt(q, now);
    forall j | 0 <= j < cap && j != now % cap ensures table[j] == Ids(SlotOf(Kept(q, now, endmode, 0), cap, j)) {
      SlotKept(q, now, cap, j);
    }
    CarriedSubset(events, freeq, q, NotDueAt(q, now) + DueAt(q, now)[0..], cap, tickNs);
  }

  /** The event being handled is carried by no other listed event. */
  lemma Apart(q: seq<Entry>, now: nat, cap: nat, endmode: bool, i: nat, x: Entry)
    requires cap > 0 && Horizon(q, now, cap) && Distinct(q) && i < |DueAt(q, now)|
    requires x in Kept(q, now, endmode, i) + DueAt(q, now)[i + 1..]
    ensures x != DueAt(q, now)[i]
  {
    var f := DueAt(q, now);
    FilterDistinct((e: Entry) => e.due == now, q);
    if x in Rearm(f[..i], now) {
      RearmMember(f[..i], now, x);
      var o :| o in f[..i] && o.recur && x == o.(due := x.due);
      assert o in f && o in q;
    }
  }

  lemma KeptNext(q: seq<Entry>, now: nat, endmode: bool, i: nat)
    requires i < |DueAt(q, now)|
    ensures var e := DueAt(q, now)[i];
            (Kept(q, now, endmode, i + 1)
             == Kept(q, now, endmode, i) + if !endmode && e.recur then [e.(due := now + e.period)] else [])
  {
    var f := DueAt(q, now);
    assert f[..i + 1][..i] == f[..i];
  }

  lemma CarriedReplace(events: seq<Event>, freeq: seq<EventId>, kept: seq<Entry>, rest: seq<Entry>,
                       e: Entry, e': Entry, ev': Event, cap: nat, tickNs: nat)
    requires cap > 0 && tickNs > 0 && e in rest
    requires Carried(events, freeq, kept + rest, cap, tickNs)
    requires forall x <- kept + rest[1..] :: x.id != e.id
    requires rest[0] == e && e'.id == e.id && Carries(ev', e', cap, tickNs)
    ensures e.id < |events|
    ensures Carried(events[e.id := ev'], freeq, kept + [e'] + rest[1..], cap, tickNs)
  {
    assert e in kept + rest;
    var q' := kept + [e'] + rest[1..];
    forall x <- q' ensures x == e' || (x in kept + rest[1..] && x in kept + rest) {}
  }

  lemma MidStaySlots(table: seq<seq<EventId>>, q: seq<Entry>, now: nat, cap: nat, i: nat)
    requires cap > 0 && Horizon(q, now, cap)
    requires MidSlots(table, q, now, cap, false, i)
    requires i < |DueAt(q, now)| && DueAt(q, now)[i].recur
    ensures var e := DueAt(q, now)[i];
            var slot := (now + e.period) % cap;
            && slot != now % cap
            && MidSlots(table[now % cap := table[now % cap][1..]][slot := table[slot] + [e.id]],
                        q, now, cap, false, i + 1)
  {
    var e := DueAt(q, now)[i];
    assert e in q;
    ModAddCases(now, e.period, cap);
    KeptNext(q, now, false, i);
    hide Kept, DueAt;
    SlotsMove(table, Kept(q, now, false, i), cap, now % cap, e.(due := now + e.period));
  }

  lemma SlotsMove(table: seq<seq<EventId>>, q: seq<Entry>, cap: nat, c: nat, e: Entry)
    requires cap > 0 && c < |table| == cap && table[c] != [] && e.due % cap != c
    requires forall j :: 0 <= j < cap && j != c ==> table[j] == Ids(SlotOf(q, cap, j))
    ensures var slot := e.due % cap;
            var table' := table[c := table[c][1..]][slot := table[slot] + [e.id]];
            forall j :: 0 <= j < cap && j != c ==> table'[j] == Ids(SlotOf(q + [e], cap, j))
  {
    forall j | 0 <= j < cap
      ensures Ids(SlotOf(q + [e], cap, j)) == Ids(SlotOf(q, cap, j)) + if e.due % cap == j then [e.id] else []
    {
      FilterAppend((e: Entry) => e.due % cap == j, q, e);
    }
  }

  lemma MidStayCarried(events: seq<Event>, freeq: seq<EventId>, q: seq<Entry>, now: nat, cap: nat, tickNs: nat, i: nat)
    requires cap > 0 && tickNs > 0 && Horizon(q, now, cap) && Distinct(q)
    requires MidCarried(events, freeq, q, now, cap, tickNs, false, i)
    requires i < |DueAt(q, now)| && DueAt(q, now)[i].recur
    ensures var e := DueAt(q, now)[i];
            && e.id < |events|
            && MidCarried(events[e.id := events[e.id].(offset := (now + e.period) % cap)], freeq,
                          q, now, cap, tickNs, false, i + 1)
  {
    hide Kept, DueAt, Carried, Horizon, Distinct;
    var f := DueAt(q, now);
    var e := f[i];
    HandledApart(events, freeq, q, now, cap, tickNs, false, i);
    KeptNext(q, now, false, i);
    var e' := e.(due := now + e.period);
    var kept := Kept(q, now, false, i);
    assert f[i..][1..] == f[i + 1..];
    CarriedReplace(events, freeq, kept, f[i..], e, e', events[e.id].(offset := e'.due % cap), cap, tickNs);
  }

  lemma HandledApart(events: seq<Event>, freeq: seq<EventId>,
                     q: seq<Entry>, now: nat, cap: nat, tickNs: nat, endmode: bool, i: nat)
    requires cap > 0 && tickNs > 0 && Horizon(q, now, cap) && Distinct(q) && i < |DueAt(q, now)|
    requires MidCarried(events, freeq, q, now, cap, tickNs, endmode, i)
    ensures var e := DueAt(q, now)[i];
            && e.id < |events| && e.id !in freeq && Carries(events[e.id], e, cap, tickNs)
            && e.due == now
            && forall x <- Kept(q, now, endmode, i) + DueAt(q, now)[i + 1..] :: x.id != e.id
  {
    var f := DueAt(q, now);
    var all := Kept(q, now, endmode, i) + f[i..];
    assert f[i] in f[i..] && f[i] in all && f[i] in f;
    forall x <- Kept(q, now, endmode, i) + f[i + 1..] ensures x.id != f[i].id {
      Apart(q, now, cap, endmode, i, x);
      assert f[i + 1..] == f[i..][1..];
      assert x in all;
    }
  }

  lemma MidGoSlots(table: seq<seq<EventId>>, q: seq<Entry>, now: nat, cap: nat, endmode: bool, i: nat)
    requires cap > 0 && MidSlots(table, q, now, cap, endmode, i)
    requires i < |DueAt(q, now)| && (endmode || !DueAt(q, now)[i].recur)
    ensures MidSlots(table[now % cap := table[now % cap][1..]], q, now, cap, endmode, i + 1)
  {
    KeptNext(q, now, endmode, i);
    hide Kept, DueAt;
    assert Kept(q, now, endmode, i + 1) == Kept(q, now, endmode, i);
  }

  lemma MidGoCarried(events: seq<Event>, freeq: seq<EventId>,
                     q: seq<Entry>, now: nat, cap: nat, tickNs: nat, endmode: bool, i: nat)
    requires cap > 0 && tickNs > 0 && Horizon(q, now, cap) && Distinct(q)
    requires MidCarried(events, freeq, q, now, cap, tickNs, endmode, i)
    requires i < |DueAt(q, now)| && (endmode || !DueAt(q, now)[i].recur)
    ensures var e := DueAt(q, now)[i];
            && e.id < |events|
            && MidCarried(events[e.id := events[e.id].(free := true)], [e.id] + freeq,
                          q, now, cap, tickNs, endmode, i + 1)
  {
    var f := DueAt(q, now);
    var e := f[i];
    HandledApart(events, freeq, q, now, cap, tickNs, endmode, i);
    KeptNext(q, now, endmode, i);
    hide Kept, DueAt;
    var kept := Kept(q, now, endmode, i);
    assert Kept(q, now, endmode, i + 1) == kept;
    assert f[i..][1..] == f[i + 1..];
    CarriedRelease(events, freeq, kept, f[i..], cap, tickNs);
  }

  lemma CarriedRelease(events: seq<Event>, freeq: seq<EventId>, kept: seq<Entry>, rest: seq<Entry>,
                       cap: nat, tickNs: nat)
    requires cap > 0 && tickNs > 0 && rest != []
    requires Carried(events, freeq, kept + rest, cap, tickNs)
    requires forall x <- kept + rest[1..] :: x.id != rest[0].id
    ensures var id := rest[0].id;
            && id < |events|
            && Carried(events[id := events[id].(free := true)], [id] + freeq, kept + rest[1..], cap, tickNs)
  {
    assert rest[0] in kept + rest;
    forall x <- kept + rest[1..] ensures x in kept + rest {}
  }

  /** After the whole slot the wheel holds the list of the next tick, and its slot is empty. */
  lemma MidEnd(table: seq<seq<EventId>>, events: seq<Event>, freeq: seq<EventId>,
               q: seq<Entry>, now: nat, cap: nat, tickNs: nat, endmode: bool)
    requires cap > 0 && tickNs > 0 && Horizon(q, now, cap)
    requires MidSlots(table, q, now, cap, endmode, |DueAt(q, now)|)
    requires MidCarried(events, freeq, q, now, cap, tickNs, endmode, |DueAt(q, now)|)
    ensures var next := Kept(q, now, endmode, |DueAt(q, now)|);
            && Slots(table, next, cap)
            && Carried(events, freeq, next, cap, tickNs)
            && Horizon(next, now + 1, cap)
  {
    hide Kept, DueAt, Carried, Slots, Horizon, SlotOf, Ids;
    NextHorizon(q, now, cap, endmode);
    var f := DueAt(q, now);
    var next := Kept(q, now, endmode, |f|);
    assert next + f[|f|..] == next;
    AnotherSlot(next, now, cap);
    SlotEmptied(table, next, cap, now % cap);
  }

  lemma AnotherSlot(q: seq<Entry>, now: nat, cap: nat)
    requires cap > 0 && forall e <- q :: now < e.due < now + cap
    ensures forall e <- q :: e.due % cap != now % cap
  {
    forall e <- q ensures e.due % cap != now % cap { ModAddCases(now, e.due - now, cap); }
  }

  lemma SlotEmptied(table: seq<seq<EventId>>, q: seq<Entry>, cap: nat, c: nat)
    requires cap > 0 && c < |table| == cap && table[c] == []
    requires forall j :: 0 <= j < cap && j != c ==> table[j] == Ids(SlotOf(q, cap, j))
    requires forall e <- q :: e.due % cap != c
    ensures Slots(table, q, cap)
  {
    FilterNone((e: Entry) => e.due % cap == c, q);
  }

  lemma NextHorizon(q: seq<Entry>, now: nat, cap: nat, endmode: bool)
    requires Horizon(q, now, cap)
    ensures Horizon(Kept(q, now, endmode, |DueAt(q, now)|), now + 1, cap)
    ensures forall e <- Kept(q, now, endmode, |DueAt(q, now)|) :: now < e.due < now + cap
  {
    var f := DueAt(q, now);
    assert f[..|f|] == f;
    forall e <- Rearm(f, now) ensures now + 1 <= e.due < now + cap && e.period < cap && e.period > 0 {
      RearmMember(f, now, e);
    }
  }

  // ------------------------------------------------------------------
  // Every object is in one place
  // ------------------------------------------------------------------

  ghost function IdSet(q: seq<Entry>): set<EventId> { set e <- q :: e.id }

  /** Of `n` objects each is free, listed, or held by others, and never two of these. */
  ghost predicate Accounted(n: nat, freeq: seq<EventId>, listed: set<EventId>, others: set<EventId>) {
    && (forall id: EventId :: id < n <==> id in freeq || id in listed || id in others)
    && others !! listed && (forall id <- freeq :: id !in others && id !in listed)
  }

  ghost predicate MidAccounted(n: nat, freeq: seq<EventId>, others: set<EventId>,
                               q: seq<Entry>, now: nat, endmode: bool, i: nat)
  {
    i <= |DueAt(q, now)| && Accounted(n, freeq, IdSet(Kept(q, now, endmode, i) + DueAt(q, now)[i..]), others)
  }

  /** The objects below `n` that are not free. */
  ghost function InUse(n: nat, freeq: seq<EventId>): (r: set<EventId>)
    ensures forall id: EventId :: id in r <==> id < n && id !in freeq
  {
    if n == 0 then {} else InUse(n - 1, freeq) + if n - 1 in freeq then {} else {n - 1}
  }

  lemma {:induction false} InUseCount(n: nat, freeq: seq<EventId>)
    requires NoDup(freeq) && forall id <- freeq :: id < n
    ensures |InUse(n, freeq)| == n - |freeq|
    decreases |freeq|
  {
    hide InUse;
    if freeq == [] {
      AllInUse(n);
    } else {
      var x, rest := freeq[0], freeq[1..];
      assert x in freeq && forall id <- rest :: id in freeq;
      InUseCount(n, rest);
      OneMoreFree(n, x, rest);
      assert [x] + rest == freeq;
    }
  }

  lemma OneMoreFree(n: nat, x: EventId, rest: seq<EventId>)
    requires x < n && x !in rest
    ensures |InUse(n, [x] + rest)| == |InUse(n, rest)| - 1
  {
    hide InUse;
    assert InUse(n, rest) == InUse(n, [x] + rest) + {x};
  }

  lemma {:induction false} AllInUse(n: nat)
    ensures |InUse(n, [])| == n
  {
    if n > 0 { AllInUse(n - 1); }
  }

  lemma AccountedBorrow(n: nat, freeq: seq<EventId>, listed: set<EventId>, others: set<EventId>)
    requires Accounted(n, freeq, listed, others) && NoDup(freeq)
    ensures if freeq == [] then Accounted(n + 1, [], listed + {n}, others)
            else Accounted(n, freeq[1..], listed + {freeq[0]}, others)
  {
    if freeq != [] { assert forall id :: id in freeq <==> id == freeq[0] || id in freeq[1..]; }
  }

  lemma AccountedReturn(n: nat, freeq: seq<EventId>, listed: set<EventId>, others: set<EventId>, id: EventId)
    requires Accounted(n, freeq, listed, others) && id in listed
    ensures Accounted(n, [id] + freeq, listed - {id}, others)
  {}

  lemma IdSetAppend(q: seq<Entry>, e: Entry)
    ensures IdSet(q + [e]) == IdSet(q) + {e.id}
  {
    assert forall x <- q :: x in q + [e];
    assert e in q + [e];
  }

  lemma IdSetConcat(a: seq<Entry>, b: seq<Entry>)
    ensures IdSet(a + b) == IdSet(a) + IdSet(b)
  {
    assert forall x <- a :: x in a + b;
    assert forall x <- b :: x in a + b;
  }

  lemma InIdSet(q: seq<Entry>, e: Entry)
    requires e in q
    ensures e.id in IdSet(q)
  {}

  lemma UnlistedId(q: seq<Entry>, id: EventId)
    requires Unlisted(q, id)
    ensures IdSet(q) + {id} - {id} == IdSet(q)
  {}

  lemma IdSetWithout(q: seq<Entry>, e: Entry)
    requires e in q && forall x <- q :: x.serial == e.serial <==> x.id == e.id
    ensures IdSet(Without(q, e.serial)) == IdSet(q) - {e.id}
  {
    forall x <- q | x.id != e.id ensures x in Without(q, e.serial) {
      FilterMember((y: Entry) => y.serial != e.serial, q, x);
    }
  }

  lemma MidStartAccounted(n: nat, freeq: seq<EventId>, others: set<EventId>, q: seq<Entry>, now: nat, endmode: bool)
    requires Accounted(n, freeq, IdSet(q), others)
    ensures MidAccounted(n, freeq, others, q, now, endmode, 0)
  {
    var f, rest := DueAt(q, now), NotDueAt(q, now);
    assert Kept(q, now, endmode, 0) == rest && f[0..] == f;
    forall x <- q ensures x in rest + f {
      if x.due == now { FilterMember((e: Entry) => e.due == now, q, x); } else { FilterMember((e: Entry) => e.due != now, q, x); }
    }
    assert IdSet(rest + f) == IdSet(q);
  }

  /** A re-armed event stays listed under its id, a finished one becomes free. */
  lemma MidNextAccounted(n: nat, freeq: seq<EventId>, others: set<EventId>, q: seq<Entry>, now: nat, endmode: bool, i: nat)
    requires i < |DueAt(q, now)| && MidAccounted(n, freeq, others, q, now, endmode, i)
    requires forall x <- Kept(q, now, endmode, i) + DueAt(q, now)[i + 1..] :: x.id != DueAt(q, now)[i].id
    ensures var e := DueAt(q, now)[i];
            MidAccounted(n, if !endmode && e.recur then freeq else [e.id] + freeq, others, q, now, endmode, i + 1)
  {
    hide Kept, DueAt, Accounted, IdSet;
    var f := DueAt(q, now);
    var e, kept := f[i], Kept(q, now, endmode, i);
    KeptNext(q, now, endmode, i);
    assert f[i..] == [e] + f[i + 1..];
    IdSetSplit(kept, e, f[i + 1..]);
    if !endmode && e.recur {
      IdSetSplit(kept, e.(due := now + e.period), f[i + 1..]);
      assert kept + [e.(due := now + e.period)] + f[i + 1..] == kept + ([e.(due := now + e.period)] + f[i + 1..]);
    } else {
      AccountedReturn(n, freeq, IdSet(kept + f[i..]), others, e.id);
      assert Kept(q, now, endmode, i + 1) == kept;
    }
  }

  lemma IdSetSplit(a: seq<Entry>, e: Entry, b: seq<Entry>)
    ensures IdSet(a + ([e] + b)) == IdSet(a + b) + {e.id}
    ensures (forall x <- a + b :: x.id != e.id) ==> IdSet(a + b) == IdSet(a + ([e] + b)) - {e.id}
  {
    IdSetConcat(a, [e] + b);
    IdSetConcat([e], b);
    IdSetConcat(a, b);
    assert IdSet([e]) == {e.id} by { assert e in [e]; }
  }

  lemma MidEndAccounted(n: nat, freeq: seq<EventId>, others: set<EventId>, q: seq<Entry>, now: nat, endmode: bool)
    requires MidAccounted(n, freeq, others, q, now, endmode, |DueAt(q, now)|)
    ensures Accounted(n, freeq, IdSet(Kept(q, now, endmode, |DueAt(q, now)|)), others)
  {
    hide Kept, DueAt, Accounted, IdSet;
    var f := DueAt(q, now);
    assert Kept(q, now, endmode, |f|) + f[|f|..] == Kept(q, now, endmode, |f|);
  }

  /** What was due and not re-armed is free at the end of the tick. */
  lemma FinishedFree(n: nat, freeq0: seq<EventId>, events: seq<Event>, freeq: seq<EventId>, others: set<EventId>,
                     q: seq<Entry>, now: nat, cap: nat, tickNs: nat, endmode: bool, e: Entry)
    requires cap > 0 && tickNs > 0 && Carried(events, freeq0, q, cap, tickNs) && Accounted(n, freeq0, IdSet(q), others)
    requires MidAccounted(n, freeq, others, q, now, endmode, |DueAt(q, now)|)
    requires e in DueAt(q, now) && (endmode || !e.recur)
    ensures e.id in freeq
  {
    var f := DueAt(q, now);
    var next := Kept(q, now, endmode, |f|);
    assert next + f[|f|..] == next && f[..|f|] == f;
    assert e.id in IdSet(q);
    forall x <- next ensures x.id != e.id {
      if x in Rearm(f, now) && x !in NotDueAt(q, now) {
        RearmMember(f, now, x);
        var o :| o in f && o.recur && x == o.(due := x.due);
      }
    }
    assert e.id !in IdSet(next);
  }

  // ------------------------------------------------------------------
  // Changing one event object
  // ------------------------------------------------------------------

  ghost predicate Unlisted(q: seq<Entry>, id: EventId) { forall e <- q :: e.id != id }

  /** An object that no listed event uses may change, and join or leave the free list. */
  lemma CarriedOther(events: seq<Event>, freeq: seq<EventId>, events': seq<Event>, freeq': seq<EventId>,
                     q: seq<Entry>, id: EventId, cap: nat, tickNs: nat)
    requires cap > 0 && tickNs > 0 && Carried(events, freeq, q, cap, tickNs) && Unlisted(q, id)
    requires |events| <= |events'| && forall i: EventId :: i < |events| && i != id ==> events'[i] == events[i]
    requires forall i <- freeq' :: i == id || i in freeq
    ensures Carried(events', freeq', q, cap, tickNs)
  {}

  lemma BorrowedUnlisted(events: seq<Event>, freeq: seq<EventId>, q: seq<Entry>, id: EventId, cap: nat, tickNs: nat)
    requires cap > 0 && tickNs > 0 && Carried(events, freeq, q, cap, tickNs)
    requires id in freeq || id >= |events|
    ensures Unlisted(q, id)
  {}

  lemma CarriedAppend(events: seq<Event>, freeq: seq<EventId>, q: seq<Entry>, e: Entry, cap: nat, tickNs: nat)
    requires cap > 0 && tickNs > 0 && Carried(events, freeq, q, cap, tickNs) && Unlisted(q, e.id)
    requires e.id < |events| && e.id !in freeq && Carries(events[e.id], e, cap, tickNs)
    ensures Carried(events, freeq, q + [e], cap, tickNs)
  {}

  // ------------------------------------------------------------------
  // The wheel
  // ------------------------------------------------------------------

  /** A clock reading: what the expiry test sees, and how long the tick it starts will take. */
  datatype Reading = Reading(now: int, elapsed: nat)

  /** A callback: the tick it was made in and the event it was made for. */
  datatype Call = Call(tick: nat, id: EventId)

  function Calls(log: seq<Fire>): seq<Call> {
    seq(|log|, i requires 0 <= i < |log| => Call(log[i].tick, log[i].id))
  }

  class TimingWheel {
    const pool: EventPool
    const cap: nat
    const tickNs: nat
    const maxNtick: nat
    var active: bool
    var due: Option<int>
    var curr: nat
    var nevent: nat
    var table: seq<seq<EventId>>
    var nprocess: nat
    var calls: seq<Call>  // the callbacks made
    var nexec: nat
    var ntick: nat
    ghost var sched: Sched
    ghost var ops: seq<Op>  // the scheduler operations performed
    ghost var others: set<EventId>  // events borrowed from the pool by others

    ghost predicate Valid()
      reads this, pool
    {
      && cap > 0 && tickNs > 0 && pool.Valid()
      && sched == Run(ops) && Inv(sched) && sched.now == ntick && curr == ntick % cap
      && Horizon(sched.queue, ntick, cap)
      && |table| == cap && Slots(table, sched.queue, cap)
      && Carried(pool.events, pool.freeq, sched.queue, cap, tickNs)
      && Accounted(|pool.events|, pool.freeq, IdSet(sched.queue), others)
      && nevent == |sched.queue| && pool.nused == nevent + |others|
      && nprocess == |sched.log| && calls == Calls(sched.log)
    }

    constructor (pool: EventPool, tickNs: nat, cap: nat, ntick: nat)
      requires pool.Valid() && cap > 0 && tickNs > 0
      ensures Valid() && sched == Empty && ops == [] && others == InUse(|pool.events|, pool.freeq)
      ensures this.pool == pool && this.cap == cap && this.tickNs == tickNs && maxNtick == ntick
      ensures !active && due.None?
    {
      this.pool, this.tickNs, this.cap, maxNtick := pool, tickNs, cap, ntick;
      active, due, curr, nevent := false, None, 0, 0;
      table := seq(cap, _ => []);
      nprocess, nexec, this.ntick, calls := 0, 0, 0, [];
      sched, ops, others := Empty, [], InUse(|pool.events|, pool.freeq);
      new;
      DivModUnique(0, cap, 0, 0);
      InUseCount(|pool.events|, pool.freeq);
    }

    /** Refused when the delay spans a whole turn, or when a recurring event has none. */
    method InsertEvent(delay: int, recur: bool, oom: bool) returns (r: Option<EventId>)
      requires Valid() && -(TWO64 as int) < delay
      modifies this`table, this`nevent, this`sched, this`ops, pool
      ensures Valid() && pool.nmax == old(pool.nmax)
      ensures var period := Offset(delay, tickNs);
              && (r.Some? <==>
                   && !(old(pool.freeq) == [] && (old(pool.nused) == pool.nmax || oom))
                   && period < cap && !(recur && period == 0))
              && sched == (if r.Some? then Insert(old(sched), r.value, period, recur) else old(sched))
              && ops == old(ops) + (if r.Some? then [OpInsert(r.value, period, recur)] else [])
              && (0 <= delay ==> delay <= period * tickNs && (period > 0 ==> (period - 1) * tickNs < delay))
    {
      OffsetLeast(delay, tickNs);
      hide Inv, Slots, Carried, Unlisted, Offset, Horizon, Calls, Accounted, IdSet, Run;
      ghost var q := sched.queue;
      AccountedBorrow(|pool.events|, pool.freeq, IdSet(q), others);
      var tev := pool.Borrow(oom);
      if tev.None? { return None; }
      var id := tev.value;
      assert Unlisted(q, id) by {
        BorrowedUnlisted(old(pool.events), old(pool.freeq), q, id, cap, tickNs);
      }
      assert Accounted(|pool.events|, pool.freeq, IdSet(q) + {id}, others);
      CarriedOther(old(pool.events), old(pool.freeq), pool.events, pool.freeq, q, id, cap, tickNs);
      var offset := Offset(delay, tickNs);
      if offset >= cap || (recur && offset == 0) {
        GiveBack(id, delay, recur);
        return None;
      }
      Place(id, delay, recur, offset);
      return Some(id);
    }

    /** Valid but for one borrowed event that is not listed yet. */
    ghost predicate Holding(id: EventId)
      reads this, pool
    {
      && cap > 0 && tickNs > 0 && pool.Valid()
      && sched == Run(ops) && Inv(sched) && sched.now == ntick && curr == ntick % cap
      && Horizon(sched.queue, ntick, cap)
      && |table| == cap && Slots(table, sched.queue, cap)
      && Carried(pool.events, pool.freeq, sched.queue, cap, tickNs)
      && Unlisted(sched.queue, id) && id < |pool.events| && id !in pool.freeq && !pool.events[id].free
      && Accounted(|pool.events|, pool.freeq, IdSet(sched.queue) + {id}, others)
      && nevent == |sched.queue| && pool.nused == nevent + 1 + |others|
      && nprocess == |sched.log| && calls == Calls(sched.log)
    }

    method GiveBack(id: EventId, delay: int, recur: bool)
      requires Holding(id)
      modifies pool
      ensures Valid() && pool.nmax == old(pool.nmax)
    {
      hide Inv, Slots, Carried, Unlisted, Horizon, Calls, Accounted, IdSet, Run;
      ghost var q := sched.queue;
      AccountedReturn(|pool.events|, pool.freeq, IdSet(q) + {id}, others, id);
      UnlistedId(q, id);
      pool.events := pool.events[id := pool.events[id].(recur := recur, delay := delay)];
      pool.Return(id);
      CarriedOther(old(pool.events), old(pool.freeq), pool.events, pool.freeq, q, id, cap, tickNs);
    }

    /** Links the event into the slot of its due tick. */
    method Place(id: EventId, delay: int, recur: bool, offset: nat)
      requires Holding(id) && -(TWO64 as int) < delay && offset == Offset(delay, tickNs) < cap && (recur ==> offset > 0)
      modifies this`table, this`nevent, this`sched, this`ops, pool
      ensures Valid() && sched == Insert(old(sched), id, offset, recur) && pool.nmax == old(pool.nmax)
      ensures ops == old(ops) + [OpInsert(id, offset, recur)]
    {
      hide Inv, Slots, Carried, Unlisted, Offset, Horizon, Calls, Accounted, IdSet, Run, Apply;
      RunInsert(ops, id, offset, recur);
      ghost var q := sched.queue;
      var slot := (curr + offset) % cap;
      ModAdd(ntick, offset, cap);
      pool.events := pool.events[id := pool.events[id].(recur := recur, delay := delay, offset := slot)];
      ghost var e := Entry(|sched.births|, id, ntick + offset, offset, recur);
      CarriedOther(old(pool.events), old(pool.freeq), pool.events, pool.freeq, q, id, cap, tickNs);
      CarriedAppend(pool.events, pool.freeq, q, e, cap, tickNs);
      IdSetAppend(q, e);
      SlotsAppend(table, q, cap, e);
      InsertInv(sched, id, offset, recur);
      HorizonOne(e, ntick, cap);
      HorizonAppend(q, e, ntick, cap);
      table := table[slot := table[slot] + [id]];
      nevent := nevent + 1;
      sched := Insert(sched, id, offset, recur);
      ops := ops + [OpInsert(id, offset, recur)];
    }

    /** Cancels a pending event; the caller must not pass one that has already fired for good. */
    method RemoveEvent(id: EventId, ghost e: Entry)
      requires Valid() && e in sched.queue && e.id == id
      modifies this`table, this`nevent, this`sched, this`ops, pool
      ensures Valid() && pool.nmax == old(pool.nmax) && ops == old(ops) + [OpRemove(e.serial)]
      ensures e.serial < |old(sched).births| && sched == Remove(old(sched), e.serial)
      ensures id in pool.freeq
    {
      hide Inv, Slots, Carried, Horizon, Accounted, IdSet, Calls, Run, Apply;
      ghost var q := sched.queue;
      RemoveFacts(sched, pool.events, pool.freeq, e, cap, tickNs);
      RunRemove(ops, e.serial);
      SlotsWithout(table, q, cap, e);
      IdSetWithout(q, e);
      InIdSet(q, e);
      AccountedReturn(|pool.events|, pool.freeq, IdSet(q), others, id);
      Take(id);
      pool.Return(id);
      ghost var rest := Without(q, e.serial);
      CarriedOther(old(pool.events), old(pool.freeq), pool.events, pool.freeq, rest, id, cap, tickNs);
      RemoveInv(sched, e.serial);
      HorizonSubset(q, rest, ntick, cap);
      sched := Remove(sched, e.serial);
      ops := ops + [OpRemove(e.serial)];
    }

    method Start(now: int)
      requires Valid()
      modifies this`active, this`due
      ensures Valid() && active && due == Some(now + tickNs)
    {
      active := true;
      due := Some(now + tickNs);
    }

    method Stop()
      requires Valid()
      modifies this`active, this`due
      ensures Valid() && !active && due.None?
    {
      active := false;
      due := None;
    }

    /** Empties the current slot in order; the next event is fetched before the current one is handled. */
    method ProcessTick(endmode: bool)
      requires Valid()
      modifies this`table, this`nevent, this`nprocess, this`calls, pool
      ensures pool.Valid() && |table| == cap && |pool.events| == old(|pool.events|)
      ensures var f := DueAt(sched.queue, ntick);
              var next := Kept(sched.queue, ntick, endmode, |f|);
              && MidSlots(table, sched.queue, ntick, cap, endmode, |f|)
              && MidCarried(pool.events, pool.freeq, sched.queue, ntick, cap, tickNs, endmode, |f|)
              && MidAccounted(|pool.events|, pool.freeq, others, sched.queue, ntick, endmode, |f|)
              && nevent == |next| && pool.nused == nevent + |others|
              && nprocess == old(nprocess) + |f| && calls == old(calls) + Calls(Fires(f, ntick))
      ensures forall e <- DueAt(sched.queue, ntick) :: endmode || !e.recur ==> e.id in pool.freeq
      ensures Rehomed(old(table), table, curr, Destination(old(pool.events), curr, cap, tickNs, endmode))
    {
      hide Inv, Carried, Horizon, Slots, MidSlots, MidCarried, Kept, DueAt, Accounted, MidAccounted, IdSet, Destination, Rehomed;
      ghost var q, now := sched.queue, ntick;
      ghost var f := DueAt(q, now);
      TickStart(sched, table, pool.events, pool.freeq, ntick, cap, tickNs, endmode);
      MidStartAccounted(|pool.events|, pool.freeq, others, q, now, endmode);
      var todo := table[curr];
      for i := 0 to |todo|
        invariant pool.Valid() && |table| == cap && |pool.events| == old(|pool.events|)
        invariant MidSlots(table, q, now, cap, endmode, i)
        invariant MidCarried(pool.events, pool.freeq, q, now, cap, tickNs, endmode, i)
        invariant MidAccounted(|pool.events|, pool.freeq, others, q, now, endmode, i)
        invariant nevent == |Kept(q, now, endmode, i)| + |f| - i && pool.nused == nevent + |others|
        invariant nprocess == old(nprocess) + i && calls == old(calls) + Calls(Fires(f, now))[..i]
      {
        HandleOne(todo[i], endmode, q, i);
      }
      forall e <- f | endmode || !e.recur ensures e.id in pool.freeq {
        FinishedFree(|pool.events|, old(pool.freeq), old(pool.events), pool.freeq, others, q, now, cap, tickNs, endmode, e);
      }
      TickRehomes(old(table), table, old(pool.events), old(pool.freeq), q, now, cap, tickNs, endmode);
    }

    method HandleOne(t: EventId, endmode: bool, ghost q: seq<Entry>, ghost i: nat)
      requires cap > 0 && tickNs > 0 && curr == ntick % cap
      requires Horizon(q, ntick, cap) && Distinct(q)
      requires pool.Valid() && |table| == cap
      requires i < |DueAt(q, ntick)| && t == DueAt(q, ntick)[i].id
      requires MidSlots(table, q, ntick, cap, endmode, i)
      requires MidCarried(pool.events, pool.freeq, q, ntick, cap, tickNs, endmode, i)
      requires MidAccounted(|pool.events|, pool.freeq, others, q, ntick, endmode, i)
      requires nevent == |Kept(q, ntick, endmode, i)| + |DueAt(q, ntick)| - i && pool.nused == nevent + |others|
      modifies this`table, this`nevent, this`nprocess, this`calls, pool
      ensures pool.Valid() && |table| == cap
      ensures MidSlots(table, q, ntick, cap, endmode, i + 1)
      ensures MidCarried(pool.events, pool.freeq, q, ntick, cap, tickNs, endmode, i + 1)
      ensures MidAccounted(|pool.events|, pool.freeq, others, q, ntick, endmode, i + 1)
      ensures |pool.events| == old(|pool.events|)
      ensures nevent == |Kept(q, ntick, endmode, i + 1)| + |DueAt(q, ntick)| - i - 1 && pool.nused == nevent + |others|
      ensures nprocess == old(nprocess) + 1 && calls == old(calls) + [Call(ntick, t)]
    {
      hide Carried, MidSlots, MidCarried, Kept, DueAt, Horizon, Distinct, Offset, Drop, Accounted, MidAccounted;
      HandledApart(pool.events, pool.freeq, q, ntick, cap, tickNs, endmode, i);
      MidNextAccounted(|pool.events|, pool.freeq, others, q, ntick, endmode, i);
      HandleFacts(table, pool.events, pool.freeq, q, ntick, cap, tickNs, endmode, i);
      nprocess := nprocess + 1;
      calls := calls + [Call(ntick, t)];
      if !endmode && pool.events[t].recur {
        MidStayCarried(pool.events, pool.freeq, q, ntick, cap, tickNs, i);
        MidStaySlots(table, q, ntick, cap, i);
        Take(t);
        Reinsert(t);
      } else {
        MidGoCarried(pool.events, pool.freeq, q, ntick, cap, tickNs, endmode, i);
        MidGoSlots(table, q, ntick, cap, endmode, i);
        Take(t);
        pool.Return(t);
      }
    }

    /** _timing_wheel_remove: out of the slot its offset names. */
    method Take(t: EventId)
      requires t < |pool.events| && pool.events[t].offset < |table| && nevent > 0
      modifies this`table, this`nevent
      ensures var slot := pool.events[t].offset;
              table == old(table)[slot := Drop(old(table)[slot], t)] && nevent == old(nevent) - 1
    {
      var slot := pool.events[t].offset;
      table := table[slot := Drop(table[slot], t)];
      nevent := nevent - 1;
    }

    /** A recurring event computes its slot again from its delay. */
    method Reinsert(t: EventId)
      requires t < |pool.events| && cap > 0 && tickNs > 0 && |table| == cap
      requires -(TWO64 as int) < pool.events[t].delay
      modifies this`table, this`nevent, pool`events
      ensures var slot := (curr + Offset(old(pool.events)[t].delay, tickNs)) % cap;
              && table == old(table)[slot := old(table)[slot] + [t]] && nevent == old(nevent) + 1
              && pool.events == old(pool.events)[t := old(pool.events)[t].(offset := slot)]
    {
      var slot := (curr + Offset(pool.events[t].delay, tickNs)) % cap;
      pool.events := pool.events[t := pool.events[t].(offset := slot)];
      table := table[slot := table[slot] + [t]];
      nevent := nevent + 1;
    }

    method AdvanceCurr()
      requires cap > 0 && curr == ntick % cap
      modifies this`curr, this`ntick
      ensures ntick == old(ntick) + 1 && curr == ntick % cap
    {
      ModAdd(ntick, 1, cap);
      curr := (curr + 1) % cap;
      ntick := ntick + 1;
    }

    /** Processing the current slot and moving on is one tick of the scheduler. */
    method Turn(endmode: bool)
      requires Valid()
      modifies this`table, this`nevent, this`nprocess, this`calls, this`curr, this`ntick, this`sched, this`ops, pool
      ensures Valid() && |pool.events| == old(|pool.events|)
      ensures ops == old(ops) + [if endmode then OpEndTick else OpTick]
      ensures sched == if endmode then EndTick(old(sched)) else Tick(old(sched))
      ensures ntick == old(ntick) + 1
    {
      hide Inv, Carried, Horizon, Slots, MidSlots, MidCarried, Kept, DueAt, Calls, Accounted, IdSet, Rehomed, Destination, Run, Apply, Tick, EndTick;
      RunTurn(ops, endmode);
      ProcessTick(endmode);
      MidEnd(table, pool.events, pool.freeq, sched.queue, ntick, cap, tickNs, endmode);
      MidEndAccounted(|pool.events|, pool.freeq, others, sched.queue, ntick, endmode);
      TurnFacts(sched, endmode);
      AdvanceCurr();
      sched := if endmode then EndTick(sched) else Tick(sched);
      ops := ops + [if endmode then OpEndTick else OpTick];
    }

    /**
     * Turns while the wheel is due, at most maxNtick times unless that is 0. `readings` is what the
     * clock returns, for as long as it is looked at; `done` tells whether the call came to its end.
     */
    method Execute(readings: seq<Reading>) returns (k: nat, done: bool)
      requires Valid()
      modifies this`table, this`nevent, this`nprocess, this`calls, this`curr, this`ntick, this`sched, this`ops, this`due, this`nexec, pool
      ensures Valid() && k <= |readings|
      ensures sched == Ticks(old(sched), k) && ops == old(ops) + seq(k, _ => OpTick)
      ensures due == DueAfter(old(due), readings[..k], tickNs)
      ensures forall i :: 0 <= i < k ==>
                var d := DueAfter(old(due), readings[..i], tickNs); TickAllowed(i) && d.Some? && d.value <= readings[i].now
      ensures maxNtick > 0 ==> k <= maxNtick
      ensures maxNtick == 0 ==> (done <==> due.None? || (k < |readings| && readings[k].now < due.value))
      ensures done <==> !TickAllowed(k) || due.None? || (k < |readings| && !Expired(due, readings[k].now))
      ensures done || k == |readings|
      ensures 0 < maxNtick <= |readings| ==> done
      ensures nexec == if done then old(nexec) + 1 else old(nexec)
    {
      hide TimingWheel.Valid, Tick, Calls, DueAfter;
      k := 0;
      DueAtFirst(due, readings, tickNs);
      while TickAllowed(k) && due.Some? && k < |readings| && Expired(due, readings[k].now)
        invariant Valid() && k <= |readings| && (maxNtick > 0 ==> k <= maxNtick)
        invariant sched == Ticks(old(sched), k) && ops == old(ops) + seq(k, _ => OpTick) && nexec == old(nexec)
        invariant due == DueAfter(old(due), readings[..k], tickNs)
        invariant forall i :: 0 <= i < k ==> TickAllowed(i) && Expired(DueAfter(old(due), readings[..i], tickNs), readings[i].now)
        decreases |readings| - k
      {
        TimedTurn(readings[k].elapsed);
        DueNext(old(due), readings, k, tickNs);
        assert seq(k, _ => OpTick) + [OpTick] == seq(k + 1, _ => OpTick);
        k := k + 1;
      }
      done := !(TickAllowed(k) && due.Some? && k == |readings|);
      if done { CountRun(); }
    }

    method CountRun()
      requires Valid()
      modifies this`nexec
      ensures Valid() && nexec == old(nexec) + 1
    {
      nexec := nexec + 1;
    }

    /** A turn, after which the due time moves by a tick less the time spent, never backwards. */
    method TimedTurn(elapsed: nat)
      requires Valid() && due.Some?
      modifies this`table, this`nevent, this`nprocess, this`calls, this`curr, this`ntick, this`sched, this`ops, this`due, pool
      ensures Valid()
      ensures sched == Tick(old(sched)) && ops == old(ops) + [OpTick]
      ensures due == if elapsed < tickNs then Some(old(due).value + tickNs - elapsed) else old(due)
    {
      hide Inv, Carried, Horizon, Slots, Tick, Accounted, IdSet, Calls, Run;
      Turn(false);
      if elapsed < tickNs {
        due := Some(due.value + tickNs - elapsed);
      }
    }

    predicate TickAllowed(n: nat) { maxNtick == 0 || n < maxNtick }

    /** One full turn without re-arming: everything pending fires once, the wheel is empty and the pool has all of it. */
    method Flush()
      requires Valid()
      modifies this`table, this`nevent, this`nprocess, this`calls, this`curr, this`ntick, this`sched, this`ops, pool
      ensures Valid()
      ensures sched == EndTicks(old(sched), cap) && ops == old(ops) + seq(cap, _ => OpEndTick)
      ensures nevent == 0 && sched.queue == []
      ensures forall e <- old(sched).queue :: e.id in pool.freeq
      ensures pool.nused == |others| && pool.nfree + |others| == |pool.events| == old(|pool.events|)
      ensures curr == old(curr) && ntick == old(ntick) + cap
      ensures sched.log == old(sched).log + FlushLog(old(sched).queue, old(ntick), cap)
    {
      hide TimingWheel.Valid, EndTick, FlushLog;
      var start := curr;
      ghost var n := 1;
      ghost var q := sched.queue;
      ValidFacts();
      ListedHeld();
      Turn(true);
      ValidFacts();
      FullTurn(old(ntick), n, cap);
      while curr != start
        invariant Valid() && |pool.events| == old(|pool.events|)
        invariant 1 <= n <= cap && ntick == old(ntick) + n && sched == EndTicks(old(sched), n)
        invariant ops == old(ops) + seq(n, _ => OpEndTick)
        invariant curr == ntick % cap && (curr == start <==> n == cap)
        decreases cap - n
      {
        Turn(true);
        ValidFacts();
        assert seq(n, _ => OpEndTick) + [OpEndTick] == seq(n + 1, _ => OpEndTick);
        n := n + 1;
        FullTurn(old(ntick), n, cap);
      }
      FlushEmpties(old(sched), cap);
      ValidFacts();
      EmptyFacts();
      assert forall e <- q :: e.id in pool.freeq;
    }

    lemma ValidFacts()
      requires Valid()
      ensures cap > 0 && Inv(sched) && sched.now == ntick && curr == ntick % cap && Horizon(sched.queue, ntick, cap)
      ensures nevent == |sched.queue| && pool.nused == nevent + |others| && pool.nfree + pool.nused == |pool.events|
    {}

    lemma ListedHeld()
      requires Valid()
      ensures forall e <- sched.queue :: e.id < |pool.events| && e.id !in others
    {
      forall e <- sched.queue ensures e.id < |pool.events| && e.id !in others { InIdSet(sched.queue, e); }
    }

    lemma EmptyFacts()
      requires Valid() && sched.queue == []
      ensures forall id: EventId :: id < |pool.events| ==> id in pool.freeq || id in others
    {}

    /**
     * In every reachable state the callbacks made are those of the scheduler's firings, and an event accepted after
     * T ticks and not cancelled since was called back at tick T + o alone, or, recurring, at every tick T + j * o,
     * where o is the offset it was given.
     */
    lemma CallsExactly(pre: seq<Op>, id: EventId, period: nat, recur: bool, post: seq<Op>)
      requires Valid() && ops == pre + [OpInsert(id, period, recur)] + post && !(recur && period == 0)
      requires Spared(post, |Run(pre).births|, recur)
      ensures var k, T := |Run(pre).births|, TickCount(pre);
              && |calls| == |sched.log|
              && (forall i :: 0 <= i < |calls| ==>
                   calls[i].tick == sched.log[i].tick && calls[i].id == sched.log[i].id && (sched.log[i].serial == k ==> calls[i].id == id))
              && (!recur ==> TicksOf(sched.log, k) == if T + period < ntick then [T + period] else [])
              && (recur ==> forall t: nat ::
                   t in TicksOf(sched.log, k) <==> t < ntick && exists j: nat :: j > 0 && t == T + j * period)
    {
      hide Run, TicksOf;
      InsertedFires(pre, id, period, recur, post);
      NowIs(ops);
      forall i | 0 <= i < |calls| ensures calls[i].tick == sched.log[i].tick && calls[i].id == sched.log[i].id {}
    }

    /** The wheel's count is the total length of its slots. */
    lemma CountIsSlots()
      requires Valid()
      ensures nevent == TotalLength(table)
    {
      SlotsTotal(table, sched.queue, cap);
    }

    /** Each object is free, or held by others, or in the slot that its offset names, once and in no other. */
    lemma OnePlace(id: EventId)
      requires Valid() && id < |pool.events|
      ensures forall j :: 0 <= j < cap ==> NoDup(table[j])
      ensures if id in pool.freeq then id !in others && forall j :: 0 <= j < cap ==> id !in table[j]
              else if id in others then forall j :: 0 <= j < cap ==> id !in table[j]
              else forall j :: 0 <= j < cap ==> (id in table[j] <==> j == pool.events[id].offset)
    {
      forall j | 0 <= j < cap ensures NoDup(table[j]) && (id in table[j] <==> id in IdSet(sched.queue) && j == pool.events[id].offset) {
        InSlot(table, pool.events, pool.freeq, sched.queue, cap, tickNs, id, j);
      }
    }
  }

  function TotalLength<T>(table: seq<seq<T>>): nat {
    if table == [] then 0 else |table[0]| + TotalLength(table[1..])
  }

  lemma InSlot(table: seq<seq<EventId>>, events: seq<Event>, freeq: seq<EventId>, q: seq<Entry>, cap: nat, tickNs: nat,
               id: EventId, j: nat)
    requires cap > 0 && tickNs > 0 && j < cap && Slots(table, q, cap) && Carried(events, freeq, q, cap, tickNs)
    requires Distinct(q) && id < |events|
    ensures NoDup(table[j]) && (id in table[j] <==> id in IdSet(q) && j == events[id].offset)
  {
    var slot := SlotOf(q, cap, j);
    FilterDistinct((e: Entry) => e.due % cap == j, q);
    assert table[j] == Ids(slot);
    forall a, b | 0 <= a < b < |slot| ensures slot[a].id != slot[b].id { assert slot[a] in q && slot[b] in q; }
    if id in table[j] {
      var a :| 0 <= a < |slot| && Ids(slot)[a] == id;
      assert slot[a] in q && slot[a].id == id;
    }
    if id in IdSet(q) && j == events[id].offset {
      var e :| e in q && e.id == id;
      FilterMember((e: Entry) => e.due % cap == j, q, e);
      var a :| 0 <= a < |slot| && slot[a] == e;
      assert Ids(slot)[a] == id;
    }
  }

  lemma {:induction false} TotalUpdate<T>(table: seq<seq<T>>, j: nat, x: T)
    requires j < |table|
    ensures TotalLength(table[j := table[j] + [x]]) == TotalLength(table) + 1
  {
    if j > 0 {
      TotalUpdate(table[1..], j - 1, x);
      assert table[j := table[j] + [x]][1..] == table[1..][j - 1 := table[j] + [x]];
    } else {
      assert table[j := table[j] + [x]][1..] == table[1..];
    }
  }

  lemma {:induction false} TotalEmpty<T>(table: seq<seq<T>>)
    requires forall row <- table :: row == []
    ensures TotalLength(table) == 0
  {
    if table != [] {
      assert table[0] in table && forall row <- table[1..] :: row in table;
      TotalEmpty(table[1..]);
    }
  }

  lemma {:induction false} SlotsTotal(table: seq<seq<EventId>>, q: seq<Entry>, cap: nat)
    requires cap > 0 && Slots(table, q, cap)
    ensures TotalLength(table) == |q|
    decreases q
  {
    if q == [] {
      TotalEmpty(table);
    } else {
      var init, e := q[..|q| - 1], q[|q| - 1];
      var before := seq(cap, j requires 0 <= j < cap => Ids(SlotOf(init, cap, j)));
      SlotsTotal(before, init, cap);
      SlotsAppend(before, init, cap, e);
      assert init + [e] == q;
      TotalUpdate(before, e.due % cap, e.id);
      assert table == before[e.due % cap := before[e.due % cap] + [e.id]];
    }
  }

  // ------------------------------------------------------------------
  // A tick on the slots alone
  // ------------------------------------------------------------------

  /** Where a tick puts an event of the current slot: a recurring one by its delay, the others nowhere. */
  ghost function Destination(events: seq<Event>, curr: nat, cap: nat, tickNs: nat, endmode: bool): EventId -> Option<nat>
    requires cap > 0 && tickNs > 0
  {
    (id: EventId) =>
      if id < |events| && !endmode && events[id].recur && -(TWO64 as int) < events[id].delay
      then Some((curr + Offset(events[id].delay, tickNs)) % cap) else None
  }

  lemma {:induction false} RearmedRow(f: seq<Entry>, now: nat, cap: nat, dest: EventId -> Option<nat>, j: nat)
    requires cap > 0 && forall e <- f :: dest(e.id) == if e.recur then Some((now + e.period) % cap) else None
    ensures Ids(SlotOf(Rearm(f, now), cap, j)) == Filter(GoesTo<EventId>(dest, j), Ids(f))
  {
    hide SlotOf, Ids, Filter;
    if f == [] {
      NoIds(cap, j, GoesTo<EventId>(dest, j));
    } else {
      var init, e := f[..|f| - 1], f[|f| - 1];
      assert forall x <- init :: x in f;
      RearmedRow(init, now, cap, dest, j);
      IdsSnoc(init, e);
      assert init + [e] == f;
      FilterAppend(GoesTo<EventId>(dest, j), Ids(init), e.id);
      assert e in f;
      if e.recur {
        SlotAppend(Rearm(init, now), cap, j, e.(due := now + e.period));
      } else {
        assert Rearm(f, now) == Rearm(init, now);
      }
    }
  }

  lemma NoIds(cap: nat, j: nat, p: EventId -> bool)
    requires cap > 0
    ensures Ids(SlotOf([], cap, j)) == [] && Filter(p, Ids([])) == []
  {}

  lemma IdsSnoc(q: seq<Entry>, e: Entry)
    ensures Ids(q + [e]) == Ids(q) + [e.id]
  {}

  lemma SlotAppend(q: seq<Entry>, cap: nat, j: nat, e: Entry)
    requires cap > 0
    ensures Ids(SlotOf(q + [e], cap, j)) == Ids(SlotOf(q, cap, j)) + if e.due % cap == j then [e.id] else []
  {
    FilterAppend((e: Entry) => e.due % cap == j, q, e);
  }

  lemma KeptRow(q: seq<Entry>, now: nat, cap: nat, endmode: bool, dest: EventId -> Option<nat>, j: nat)
    requires cap > 0 && j != now % cap
    requires forall e <- DueAt(q, now) :: dest(e.id) == if !endmode && e.recur then Some((now + e.period) % cap) else None
    ensures Ids(SlotOf(Kept(q, now, endmode, |DueAt(q, now)|), cap, j))
         == Ids(SlotOf(q, cap, j)) + Filter(GoesTo<EventId>(dest, j), Ids(DueAt(q, now)))
  {
    hide SlotOf, Ids, Filter, DueAt, NotDueAt, Rearm;
    var f := DueAt(q, now);
    assert f[..|f|] == f;
    SlotKept(q, now, cap, j);
    if endmode {
      NoneGoes(f, dest, j);
      assert NotDueAt(q, now) + [] == NotDueAt(q, now);
    } else {
      RearmedRow(f, now, cap, dest, j);
      SlotConcat(NotDueAt(q, now), Rearm(f, now), cap, j);
    }
  }

  lemma NoneGoes(f: seq<Entry>, dest: EventId -> Option<nat>, j: nat)
    requires forall e <- f :: dest(e.id) == None
    ensures Filter(GoesTo<EventId>(dest, j), Ids(f)) == []
  {
    forall x <- Ids(f) ensures dest(x) == None {
      var k :| 0 <= k < |f| && Ids(f)[k] == x;
      assert f[k] in f;
    }
    FilterNone(GoesTo<EventId>(dest, j), Ids(f));
  }

  lemma SlotConcat(a: seq<Entry>, b: seq<Entry>, cap: nat, j: nat)
    requires cap > 0
    ensures Ids(SlotOf(a + b, cap, j)) == Ids(SlotOf(a, cap, j)) + Ids(SlotOf(b, cap, j))
  {
    FilterConcat((e: Entry) => e.due % cap == j, a, b);
  }

  /** On the slots a tick does what a traversal of linked lists does that moves each entry as it goes. */
  lemma TickRehomes(table: seq<seq<EventId>>, table': seq<seq<EventId>>, events: seq<Event>, freeq: seq<EventId>,
                    q: seq<Entry>, now: nat, cap: nat, tickNs: nat, endmode: bool)
    requires cap > 0 && tickNs > 0 && Horizon(q, now, cap) && Slots(table, q, cap)
    requires Carried(events, freeq, q, cap, tickNs) && MidSlots(table', q, now, cap, endmode, |DueAt(q, now)|)
    ensures Rehomed(table, table', now % cap, Destination(events, now % cap, cap, tickNs, endmode))
  {
    hide Kept, DueAt, SlotOf, Horizon, Destination, Carried, Ids, Filter;
    var dest := Destination(events, now % cap, cap, tickNs, endmode);
    SlotIsDue(q, now, cap);
    forall e <- DueAt(q, now) ensures dest(e.id) == if !endmode && e.recur then Some((now + e.period) % cap) else None {
      DestinationIs(events, freeq, q, now, cap, tickNs, endmode, e);
    }
    assert Ids(DueAt(q, now))[|DueAt(q, now)|..] == [];
    forall j | 0 <= j < cap && j != now % cap
      ensures table'[j] == table[j] + Filter(GoesTo<EventId>(dest, j), table[now % cap])
    {
      KeptRow(q, now, cap, endmode, dest, j);
    }
  }

  lemma DestinationIs(events: seq<Event>, freeq: seq<EventId>, q: seq<Entry>, now: nat, cap: nat, tickNs: nat,
                      endmode: bool, e: Entry)
    requires cap > 0 && tickNs > 0 && Carried(events, freeq, q, cap, tickNs) && e in DueAt(q, now)
    ensures Destination(events, now % cap, cap, tickNs, endmode)(e.id)
         == if !endmode && e.recur then Some((now + e.period) % cap) else None
  {
    hide Offset, DueAt;
    DueListedIn(q, now, e);
    ModAdd(now, e.period, cap);
  }

  lemma DueListedIn(q: seq<Entry>, now: nat, e: Entry)
    requires e in DueAt(q, now)
    ensures e in q
  {}

  /** The due time after some ticks: each adds a tick and subtracts its own duration, unless that was longer. */
  function DueAfter(due: Option<int>, readings: seq<Reading>, tickNs: nat): Option<int> {
    if readings == [] then due
    else
      var d := DueAfter(due, readings[..|readings| - 1], tickNs);
      var elapsed := readings[|readings| - 1].elapsed;
      if d.Some? && elapsed < tickNs then Some(d.value + tickNs - elapsed) else d
  }

  /** Ticks of at most a tick's length cost the due time what they took, longer ones a whole tick: it never moves back. */
  lemma {:induction false} DueMoves(due: int, readings: seq<Reading>, tickNs: nat)
    ensures DueAfter(None, readings, tickNs) == None
    ensures 0 <= |readings| * tickNs && DueAfter(Some(due), readings, tickNs) == Some(due + |readings| * tickNs - Spent(readings, tickNs))
    ensures Spent(readings, tickNs) <= |readings| * tickNs
  {
    if readings != [] {
      DueMoves(due, readings[..|readings| - 1], tickNs);
      SuccMul(|readings| - 1, tickNs);
    }
  }

  function Spent(readings: seq<Reading>, tickNs: nat): nat {
    if readings == [] then 0 else Spent(readings[..|readings| - 1], tickNs) + Min(readings[|readings| - 1].elapsed, tickNs)
  }

  lemma DueAtFirst(due: Option<int>, readings: seq<Reading>, tickNs: nat)
    ensures DueAfter(due, readings[..0], tickNs) == due
  {}

  lemma DueNext(due: Option<int>, readings: seq<Reading>, k: nat, tickNs: nat)
    requires k < |readings|
    ensures var d := DueAfter(due, readings[..k], tickNs);
            var elapsed := readings[k].elapsed;
            (DueAfter(due, readings[..k + 1], tickNs)
             == if d.Some? && elapsed < tickNs then Some(d.value + tickNs - elapsed) else d)
  {
    assert readings[..k + 1][..k] == readings[..k];
  }

  predicate Expired(due: Option<int>, now: int) { due.Some? && now >= due.value }

  lemma TurnFacts(s: Sched, endmode: bool)
    requires Inv(s)
    ensures var s' := if endmode then EndTick(s) else Tick(s);
            && Inv(s') && s'.now == s.now + 1
            && s'.queue == Kept(s.queue, s.now, endmode, |DueAt(s.queue, s.now)|)
            && s'.log == s.log + Fires(DueAt(s.queue, s.now), s.now)
            && Calls(s'.log) == Calls(s.log) + Calls(Fires(DueAt(s.queue, s.now), s.now))
  {
    hide Inv, Calls, DueAt, NotDueAt, Rearm, Fires;
    var f := DueAt(s.queue, s.now);
    assert f[..|f|] == f;
    CallsAppend(s.log, Fires(f, s.now));
    if endmode {
      EndTickInv(s);
      assert NotDueAt(s.queue, s.now) + [] == NotDueAt(s.queue, s.now);
    } else {
      TickInv(s);
    }
  }

  lemma CallsAppend(a: seq<Fire>, b: seq<Fire>)
    ensures Calls(a + b) == Calls(a) + Calls(b)
  {}

  lemma FullTurn(ntick: nat, n: nat, cap: nat)
    requires 1 <= n <= cap
    ensures (ntick + n) % cap == ntick % cap <==> n == cap
  {
    ModAddCases(ntick, n, cap);
  }

  lemma FlushEmpties(s: Sched, cap: nat)
    requires Inv(s) && Horizon(s.queue, s.now, cap)
    ensures EndTicks(s, cap).queue == []
    ensures EndTicks(s, cap).log == s.log + FlushLog(s.queue, s.now, cap)
  {
    EndTicksSpec(s, cap);
    FilterNone((e: Entry) => e.due >= s.now + cap, s.queue);
  }

  lemma TickStart(s: Sched, table: seq<seq<EventId>>, events: seq<Event>, freeq: seq<EventId>,
                  now: nat, cap: nat, tickNs: nat, endmode: bool)
    requires cap > 0 && tickNs > 0 && Inv(s) && Horizon(s.queue, now, cap) && Slots(table, s.queue, cap)
    requires Carried(events, freeq, s.queue, cap, tickNs)
    ensures MidSlots(table, s.queue, now, cap, endmode, 0)
    ensures MidCarried(events, freeq, s.queue, now, cap, tickNs, endmode, 0)
    ensures |Kept(s.queue, now, endmode, 0)| + |DueAt(s.queue, now)| == |s.queue|
    ensures table[now % cap] == Ids(DueAt(s.queue, now)) && Distinct(s.queue)
  {
    MidStart(table, events, freeq, s.queue, now, cap, tickNs, endmode);
    DueAndNotDue(s.queue, now);
  }

  lemma {:induction false} DueAndNotDue(q: seq<Entry>, t: nat)
    ensures |DueAt(q, t)| + |NotDueAt(q, t)| == |q|
  {
    if q != [] { DueAndNotDue(q[..|q| - 1], t); }
  }

  lemma HandleFacts(table: seq<seq<EventId>>, events: seq<Event>, freeq: seq<EventId>,
                    q: seq<Entry>, now: nat, cap: nat, tickNs: nat, endmode: bool, i: nat)
    requires cap > 0 && tickNs > 0 && Horizon(q, now, cap) && Distinct(q) && i < |DueAt(q, now)|
    requires MidSlots(table, q, now, cap, endmode, i)
    requires MidCarried(events, freeq, q, now, cap, tickNs, endmode, i)
    ensures var e := DueAt(q, now)[i];
            && e.id < |events| && e.id !in freeq && !events[e.id].free
            && events[e.id].offset == now % cap && events[e.id].recur == e.recur
            && -(TWO64 as int) < events[e.id].delay
            && (now % cap + Offset(events[e.id].delay, tickNs)) % cap == (now + e.period) % cap
            && Drop(table[now % cap], e.id) == table[now % cap][1..]
            && |Kept(q, now, endmode, i + 1)| == |Kept(q, now, endmode, i)| + if !endmode && e.recur then 1 else 0
  {
    hide Kept, DueAt, MidCarried, Carried, Horizon, Distinct, Ids, Offset, Drop;
    var e := DueAt(q, now)[i];
    HandledApart(events, freeq, q, now, cap, tickNs, endmode, i);
    KeptNext(q, now, endmode, i);
    DropFirst(events, freeq, q, now, cap, tickNs, endmode, i);
    assert Ids(DueAt(q, now))[i..][1..] == Ids(DueAt(q, now))[i + 1..];
    ModAdd(now, e.period, cap);
  }

  lemma DropFirst(events: seq<Event>, freeq: seq<EventId>,
                  q: seq<Entry>, now: nat, cap: nat, tickNs: nat, endmode: bool, i: nat)
    requires cap > 0 && tickNs > 0 && Distinct(q) && i < |DueAt(q, now)|
    requires MidCarried(events, freeq, q, now, cap, tickNs, endmode, i)
    ensures Drop(Ids(DueAt(q, now))[i..], DueAt(q, now)[i].id) == Ids(DueAt(q, now))[i + 1..]
  {
    var f := DueAt(q, now);
    FilterDistinct((e: Entry) => e.due == now, q);
    var s := Ids(f)[i..];
    var all := Kept(q, now, endmode, i) + f[i..];
    forall a, b | 0 <= a < b < |s| ensures s[a] != s[b] {
      assert f[i + a] == f[i..][a] && f[i + b] == f[i..][b];
      assert f[i..][a] in all && f[i..][b] in all;
    }
    DropHead(s);
    assert s[1..] == Ids(f)[i + 1..];
  }

  lemma RemoveFacts(s: Sched, events: seq<Event>, freeq: seq<EventId>, e: Entry, cap: nat, tickNs: nat)
    requires Inv(s) && e in s.queue && cap > 0 && tickNs > 0
    requires Carried(events, freeq, s.queue, cap, tickNs)
    ensures e.serial < |s.births| && Listed(s.queue, e.serial) && Distinct(s.queue)
    ensures forall x <- s.queue :: x.serial == e.serial <==> x.id == e.id
    ensures e.id < |events| && e.id !in freeq && !events[e.id].free && events[e.id].offset == e.due % cap
    ensures Carried(events, freeq, Without(s.queue, e.serial), cap, tickNs)
    ensures Unlisted(Without(s.queue, e.serial), e.id)
    ensures |Without(s.queue, e.serial)| == |s.queue| - 1
  {
    assert Pending(s, e);
    forall x <- s.queue | x.serial == e.serial ensures x == e { SameSerial(s.queue, x, e); }
    WithoutLength(s.queue, e);
  }

  lemma RunInsert(ops: seq<Op>, id: EventId, period: nat, recur: bool)
    requires recur ==> period > 0
    ensures Run(ops + [OpInsert(id, period, recur)]) == Insert(Run(ops), id, period, recur)
  {
    RunSnoc(ops, OpInsert(id, period, recur));
  }

  lemma RunRemove(ops: seq<Op>, serial: nat)
    requires serial < |Run(ops).births| && Listed(Run(ops).queue, serial)
    ensures Run(ops + [OpRemove(serial)]) == Remove(Run(ops), serial)
  {
    RunSnoc(ops, OpRemove(serial));
  }

  lemma RunTurn(ops: seq<Op>, endmode: bool)
    ensures Run(ops + [if endmode then OpEndTick else OpTick]) == if endmode then EndTick(Run(ops)) else Tick(Run(ops))
  {
    RunSnoc(ops, if endmode then OpEndTick else OpTick);
  }

  lemma HorizonOne(e: Entry, now: nat, cap: nat)
    requires now <= e.due < now + cap && e.period < cap && (e.recur ==> e.period > 0)
    ensures Horizon([e], now, cap)
  {}

  lemma HorizonAppend(q: seq<Entry>, e: Entry, now: nat, cap: nat)
    requires Horizon(q, now, cap) && Horizon([e], now, cap)
    ensures Horizon(q + [e], now, cap)
  {}

  lemma HorizonSubset(q: seq<Entry>, r: seq<Entry>, now: nat, cap: nat)
    requires Horizon(q, now, cap) && forall e <- r :: e in q
    ensures Horizon(r, now, cap)
  {}
}
