/**
 * A plain tick scheduler: one list of pending events in the order they were
 * (re)inserted, each with the tick it is due at. It is what the timing wheel
 * of src/time/cc_wheel.c is meant to compute without ever scanning that list.
 */
module Scheduler {
  import opened Bytes
  import opened Arith
  import opened Filters

  /** A pending event. `serial` names the insertion, `id` the pooled object that carries it. */
  datatype Entry = Entry(serial: nat, id: nat, due: nat, period: nat, recur: bool)

  datatype Fire = Fire(tick: nat, serial: nat, id: nat)

  /** One insertion: at tick `at`, `period` ticks ahead; over before tick `ended` if that is set. */
  datatype Birth = Birth(at: nat, period: nat, recur: bool, ended: Option<nat>)

  /** `now` counts the ticks processed; `births` and `log` are the full history. */
  datatype Sched = Sched(now: nat, queue: seq<Entry>, births: seq<Birth>, log: seq<Fire>)

  const Empty := Sched(0, [], [], [])

  // ------------------------------------------------------------------
  // Steps
  // ------------------------------------------------------------------

  function DueAt(q: seq<Entry>, t: nat): seq<Entry> { Filter((e: Entry) => e.due == t, q) }
  function NotDueAt(q: seq<Entry>, t: nat): seq<Entry> { Filter((e: Entry) => e.due != t, q) }

  function Rearm(q: seq<Entry>, now: nat): seq<Entry> {
    if q == [] then []
    else
      var e := q[|q| - 1];
      Rearm(q[..|q| - 1], now) + if e.recur then [e.(due := now + e.period)] else []
  }

  function Fires(q: seq<Entry>, t: nat): seq<Fire> {
    seq(|q|, i requires 0 <= i < |q| => Fire(t, q[i].serial, q[i].id))
  }

  function Insert(s: Sched, id: nat, period: nat, recur: bool): Sched {
    s.(queue := s.queue + [Entry(|s.births|, id, s.now + period, period, recur)],
       births := s.births + [Birth(s.now, period, recur, None)])
  }

  function Without(q: seq<Entry>, serial: nat): seq<Entry> { Filter((e: Entry) => e.serial != serial, q) }

  function Remove(s: Sched, serial: nat): Sched
    requires serial < |s.births|
  {
    s.(queue := Without(s.queue, serial),
       births := s.births[serial := s.births[serial].(ended := Some(s.now))])
  }

  /** Fire what is due, in list order; recurring events go to the end of the list, one period ahead. */
  function Tick(s: Sched): Sched {
    var fired := DueAt(s.queue, s.now);
    s.(now := s.now + 1,
       queue := NotDueAt(s.queue, s.now) + Rearm(fired, s.now),
       log := s.log + Fires(fired, s.now))
  }

  /** A tick of a flush: recurring events fire like the others and are then over. */
  function EndTick(s: Sched): Sched {
    var fired := DueAt(s.queue, s.now);
    s.(now := s.now + 1,
       queue := NotDueAt(s.queue, s.now),
       births := EndAll(s.births, fired, s.now + 1),
       log := s.log + Fires(fired, s.now))
  }

  function EndAll(births: seq<Birth>, fired: seq<Entry>, end: nat): (r: seq<Birth>)
    ensures |r| == |births|
  {
    seq(|births|, i requires 0 <= i < |births| =>
      if exists e <- fired :: e.serial == i && e.recur then births[i].(ended := Some(end)) else births[i])
  }

  function Ticks(s: Sched, n: nat): Sched { if n == 0 then s else Tick(Ticks(s, n - 1)) }
  function EndTicks(s: Sched, n: nat): Sched { if n == 0 then s else EndTick(EndTicks(s, n - 1)) }

  // ------------------------------------------------------------------
  // When an insertion must fire, said without any list
  // ------------------------------------------------------------------

  predicate FiresAt(b: Birth, t: nat) {
    if b.recur then b.period > 0 && t > b.at && (t - b.at) % b.period == 0 else t == b.at + b.period
  }

  /** The ticks before `end` at which the insertion fires, in order. */
  function Expected(b: Birth, end: nat): seq<nat> {
    if end == 0 then [] else Expected(b, end - 1) + if FiresAt(b, end - 1) then [end - 1] else []
  }

  function EndOf(b: Birth, now: nat): nat { if b.ended.Some? then b.ended.value else now }

  /** The ticks at which the log says that insertion `serial` fired. */
  function TicksOf(log: seq<Fire>, serial: nat): seq<nat> {
    if log == [] then []
    else
      var f := log[|log| - 1];
      TicksOf(log[..|log| - 1], serial) + if f.serial == serial then [f.tick] else []
  }

  // ------------------------------------------------------------------
  // Invariant of every run
  // ------------------------------------------------------------------

  ghost predicate Distinct(q: seq<Entry>) {
    forall i, j :: 0 <= i < j < |q| ==> q[i].serial != q[j].serial
  }

  /** `due` is the first tick from `now` on at which the insertion fires. */
  ghost predicate IsNext(b: Birth, now: nat, due: nat) {
    && now <= due && FiresAt(b, due)
    && forall t :: now <= t < due ==> !FiresAt(b, t)
  }

  ghost predicate Pending(s: Sched, e: Entry) {
    && e.serial < |s.births|
    && var b := s.births[e.serial];
       && b.period == e.period && b.recur == e.recur && (e.recur ==> e.period > 0)
       && b.ended.None? && IsNext(b, s.now, e.due)
  }

  /** An insertion that is no longer listed will not fire again. */
  ghost predicate Settled(s: Sched, k: nat)
    requires k < |s.births|
  {
    var b := s.births[k];
    if b.ended.Some? then b.ended.value <= s.now
    else !b.recur && b.at + b.period < s.now
  }

  ghost predicate Listed(q: seq<Entry>, k: nat) { exists e <- q :: e.serial == k }

  ghost predicate Inv(s: Sched) {
    && Distinct(s.queue)
    && (forall e <- s.queue :: Pending(s, e))
    && (forall k :: 0 <= k < |s.births| && !Listed(s.queue, k) ==> Settled(s, k))
    && (forall k :: 0 <= k < |s.births| ==>
         TicksOf(s.log, k) == Expected(s.births[k], EndOf(s.births[k], s.now)))
    && (forall f <- s.log :: f.serial < |s.births|)
  }

  lemma {:induction false} FilterDistinct(f: Entry -> bool, q: seq<Entry>)
    requires Distinct(q)
    ensures Distinct(Filter(f, q))
  {
    if q != [] {
      var init := q[..|q| - 1];
      FilterDistinct(f, init);
      forall e <- Filter(f, init) ensures e.serial != q[|q| - 1].serial {
        assert e in init;
      }
    }
  }

  lemma {:induction false} RearmMember(q: seq<Entry>, now: nat, e: Entry)
    ensures e in Rearm(q, now) <==> e.recur && e.due == now + e.period && exists o <- q :: o.recur && e == o.(due := e.due)
  {
    if q != [] {
      RearmMember(q[..|q| - 1], now, e);
      assert q == q[..|q| - 1] + [q[|q| - 1]];
    }
  }

  lemma {:induction false} RearmDistinct(q: seq<Entry>, now: nat)
    requires Distinct(q)
    ensures Distinct(Rearm(q, now))
  {
    if q != [] {
      var init := q[..|q| - 1];
      RearmDistinct(init, now);
      forall e <- Rearm(init, now) ensures e.serial != q[|q| - 1].serial {
        RearmMember(init, now, e);
      }
    }
  }

  lemma SameSerial(q: seq<Entry>, a: Entry, b: Entry)
    requires Distinct(q) && a in q && b in q && a.serial == b.serial
    ensures a == b
  {
    var i :| 0 <= i < |q| && q[i] == a;
    var j :| 0 <= j < |q| && q[j] == b;
    if i < j { assert false; } else if j < i { assert false; }
  }

  /** Who is on the list after a tick, and with which due tick. */
  lemma TickQueue(q: seq<Entry>, now: nat, e: Entry)
    ensures e in NotDueAt(q, now) + Rearm(DueAt(q, now), now) <==>
              (e in q && e.due != now)
              || (e.recur && e.due == now + e.period && exists o <- q :: o.recur && o.due == now && e == o.(due := e.due))
  {
    var fired := DueAt(q, now);
    RearmMember(fired, now, e);
    if e in q && e.due != now { FilterMember((e: Entry) => e.due != now, q, e); }
    if o :| o in q && o.recur && o.due == now && e == o.(due := e.due) {
      FilterMember((e: Entry) => e.due == now, q, o);
    }
  }

  lemma TickDistinct(q: seq<Entry>, now: nat)
    requires Distinct(q)
    ensures Distinct(NotDueAt(q, now) + Rearm(DueAt(q, now), now))
  {
    var kept, fired := NotDueAt(q, now), DueAt(q, now);
    FilterDistinct((e: Entry) => e.due != now, q);
    FilterDistinct((e: Entry) => e.due == now, q);
    RearmDistinct(fired, now);
    forall a <- kept, b <- Rearm(fired, now) ensures a.serial != b.serial {
      RearmMember(fired, now, b);
      var o :| o in fired && o.recur && b == o.(due := b.due);
      if a.serial == b.serial { SameSerial(q, a, o); }
    }
    var all := kept + Rearm(fired, now);
    forall i, j | 0 <= i < j < |all| ensures all[i].serial != all[j].serial {
      if i < |kept| && j >= |kept| { assert all[i] in kept && all[j] in Rearm(fired, now); }
    }
  }

  /** A recurring event is next due exactly one period after it fired. */
  lemma NextPeriod(b: Birth, now: nat)
    requires b.recur && FiresAt(b, now)
    ensures IsNext(b, now + 1, now + b.period)
  {
    var d := now - b.at;
    ModShift(d, 1, b.period);
    forall t | now + 1 <= t < now + b.period ensures !FiresAt(b, t) {
      ModAddCases(d, t - now, b.period);
    }
  }

  lemma {:induction false} TicksOfAppend(a: seq<Fire>, b: seq<Fire>, k: nat)
    ensures TicksOf(a + b, k) == TicksOf(a, k) + TicksOf(b, k)
  {
    if b == [] {
      assert a + b == a;
    } else {
      assert (a + b)[..|a + b| - 1] == a + b[..|b| - 1];
      TicksOfAppend(a, b[..|b| - 1], k);
    }
  }

  /** With distinct serials, one tick adds at most one firing per insertion. */
  lemma {:induction false} TicksOfFires(q: seq<Entry>, t: nat, k: nat)
    requires Distinct(q)
    ensures TicksOf(Fires(q, t), k) == if Listed(q, k) then [t] else []
  {
    if q != [] {
      var init, last := q[..|q| - 1], q[|q| - 1];
      TicksOfFires(init, t, k);
      assert Fires(q, t)[..|q| - 1] == Fires(init, t);
      assert q == init + [last];
      if last.serial == k && Listed(init, k) {
        assert false;
      }
    }
  }

  lemma {:induction false} TicksOfStranger(log: seq<Fire>, k: nat)
    requires forall f <- log :: f.serial != k
    ensures TicksOf(log, k) == []
  {
    if log != [] { TicksOfStranger(log[..|log| - 1], k); }
  }

  lemma {:induction false} ExpectedNone(b: Birth, end: nat)
    requires forall t :: 0 <= t < end ==> !FiresAt(b, t)
    ensures Expected(b, end) == []
  {
    if end > 0 { ExpectedNone(b, end - 1); }
  }

  lemma FirstPeriod(b: Birth)
    requires b.recur ==> b.period > 0
    ensures IsNext(b, b.at, b.at + b.period)
    ensures forall t :: 0 <= t < b.at ==> !FiresAt(b, t)
  {
    if b.recur {
      ModShift(0, 1, b.period);
      forall t | b.at <= t < b.at + b.period ensures !FiresAt(b, t) {
        DivModUnique(t - b.at, b.period, 0, t - b.at);
      }
    }
  }

  lemma InsertInv(s: Sched, id: nat, period: nat, recur: bool)
    requires Inv(s) && (recur ==> period > 0)
    ensures Inv(Insert(s, id, period, recur))
  {
    hide Pending, Settled, FiresAt, Expected, TicksOf;
    var s' := Insert(s, id, period, recur);
    var n := |s.births|;
    InsertDistinct(s, id, period, recur);
    forall e <- s'.queue ensures Pending(s', e) { InsertPending(s, id, period, recur, e); }
    forall k | 0 <= k < |s'.births| && !Listed(s'.queue, k) ensures Settled(s', k) {
      InsertSettled(s, id, period, recur, k);
    }
    NothingYet(s'.births[n], s.log, n);
  }

  lemma NothingYet(b: Birth, log: seq<Fire>, k: nat)
    requires (b.recur ==> b.period > 0) && forall f <- log :: f.serial != k
    ensures TicksOf(log, k) == [] == Expected(b, b.at)
  {
    FirstPeriod(b);
    ExpectedNone(b, b.at);
    TicksOfStranger(log, k);
  }

  lemma InsertDistinct(s: Sched, id: nat, period: nat, recur: bool)
    requires Inv(s)
    ensures Distinct(Insert(s, id, period, recur).queue)
  {
    hide FiresAt, Expected, TicksOf, Settled;
    forall e <- s.queue ensures e.serial < |s.births| { assert Pending(s, e); }
  }

  lemma InsertPending(s: Sched, id: nat, period: nat, recur: bool, e: Entry)
    requires Inv(s) && (recur ==> period > 0) && e in Insert(s, id, period, recur).queue
    ensures Pending(Insert(s, id, period, recur), e)
  {
    hide FiresAt, Expected, TicksOf, Settled;
    if e in s.queue { assert Pending(s, e); } else { FirstPeriod(Birth(s.now, period, recur, None)); }
  }

  lemma InsertSettled(s: Sched, id: nat, period: nat, recur: bool, k: nat)
    requires Inv(s) && k < |Insert(s, id, period, recur).births| && !Listed(Insert(s, id, period, recur).queue, k)
    ensures Settled(Insert(s, id, period, recur), k)
  {
    hide FiresAt, Expected, TicksOf, Pending;
    var s' := Insert(s, id, period, recur);
    assert s'.queue[|s.queue|].serial == |s.births| && s'.queue[|s.queue|] in s'.queue;
    assert forall e <- s.queue :: e in s'.queue;
    assert Settled(s, k);
  }

  lemma RemoveInv(s: Sched, serial: nat)
    requires Inv(s) && Listed(s.queue, serial) && serial < |s.births|
    ensures Inv(Remove(s, serial))
  {
    var s' := Remove(s, serial);
    var keep := (e: Entry) => e.serial != serial;
    FilterDistinct(keep, s.queue);
    forall e <- s'.queue ensures Pending(s', e) { assert Pending(s, e); }
    forall k | 0 <= k < |s'.births| && !Listed(s'.queue, k) ensures Settled(s', k) {
      if k != serial {
        assert !Listed(s.queue, k) by {
          if e :| e in s.queue && e.serial == k { FilterMember(keep, s.queue, e); }
        }
        assert Settled(s, k);
      }
    }
    assert s.births[serial].ended.None? by { var e :| e in s.queue && e.serial == serial; assert Pending(s, e); }
    ExpectedIgnoresEnd(s.births[serial], s'.births[serial], s.now);
  }

  /** At tick `now` the listed insertions that fire are exactly those that must. */
  lemma FiredIffDue(s: Sched, k: nat)
    requires Inv(s) && k < |s.births|
    ensures Listed(DueAt(s.queue, s.now), k) <==> s.births[k].ended.None? && FiresAt(s.births[k], s.now)
  {
    if Listed(s.queue, k) {
      var e :| e in s.queue && e.serial == k;
      assert Pending(s, e);
      if e.due == s.now { FilterMember((e: Entry) => e.due == s.now, s.queue, e); }
      forall o <- DueAt(s.queue, s.now) | o.serial == k ensures o == e { SameSerial(s.queue, o, e); }
    } else {
      assert Settled(s, k);
    }
  }

  lemma LogAfterTick(s: Sched, k: nat)
    requires Inv(s) && k < |s.births|
    ensures TicksOf(s.log + Fires(DueAt(s.queue, s.now), s.now), k)
         == TicksOf(s.log, k) + if s.births[k].ended.None? && FiresAt(s.births[k], s.now) then [s.now] else []
  {
    var fired := DueAt(s.queue, s.now);
    FilterDistinct((e: Entry) => e.due == s.now, s.queue);
    TicksOfAppend(s.log, Fires(fired, s.now), k);
    TicksOfFires(fired, s.now, k);
    FiredIffDue(s, k);
  }

  lemma TickPending(s: Sched, e: Entry)
    requires Inv(s) && e in Tick(s).queue
    ensures Pending(Tick(s), e)
  {
    TickQueue(s.queue, s.now, e);
    if e in s.queue && e.due != s.now {
      assert Pending(s, e);
    } else {
      var o :| o in s.queue && o.recur && o.due == s.now && e == o.(due := e.due);
      assert Pending(s, o);
      NextPeriod(s.births[e.serial], s.now);
    }
  }

  lemma TickSettled(s: Sched, k: nat)
    requires Inv(s) && k < |s.births| && !Listed(Tick(s).queue, k)
    ensures Settled(Tick(s), k)
  {
    if Listed(s.queue, k) {
      var e :| e in s.queue && e.serial == k;
      assert Pending(s, e);
      TickQueue(s.queue, s.now, e);
      TickQueue(s.queue, s.now, e.(due := s.now + e.period));
    } else {
      assert Settled(s, k);
    }
  }

  lemma FiresSerials(s: Sched)
    requires Inv(s)
    ensures forall f <- s.log + Fires(DueAt(s.queue, s.now), s.now) :: f.serial < |s.births|
  {
    var fired := DueAt(s.queue, s.now);
    forall i | 0 <= i < |fired| ensures Fires(fired, s.now)[i].serial < |s.births| {
      assert fired[i] in s.queue && Pending(s, fired[i]);
    }
  }

  lemma TickInv(s: Sched)
    requires Inv(s)
    ensures Inv(Tick(s))
  {
    var s' := Tick(s);
    TickDistinct(s.queue, s.now);
    forall e <- s'.queue ensures Pending(s', e) { TickPending(s, e); }
    forall k | 0 <= k < |s'.births| && !Listed(s'.queue, k) ensures Settled(s', k) { TickSettled(s, k); }
    forall k | 0 <= k < |s'.births|
      ensures TicksOf(s'.log, k) == Expected(s'.births[k], EndOf(s'.births[k], s'.now))
    {
      LogAfterTick(s, k);
    }
    FiresSerials(s);
  }

  lemma EndTickInv(s: Sched)
    requires Inv(s)
    ensures Inv(EndTick(s))
  {
    var s' := EndTick(s);
    var fired := DueAt(s.queue, s.now);
    FilterDistinct((e: Entry) => e.due != s.now, s.queue);
    forall e <- s'.queue ensures Pending(s', e) {
      assert Pending(s, e);
      forall o <- fired ensures o.serial != e.serial {
        if o.serial == e.serial { SameSerial(s.queue, o, e); }
      }
    }
    forall k | 0 <= k < |s'.births| && !Listed(s'.queue, k) ensures Settled(s', k) { EndTickSettled(s, k); }
    forall k | 0 <= k < |s'.births|
      ensures TicksOf(s'.log, k) == Expected(s'.births[k], EndOf(s'.births[k], s'.now))
    {
      LogAfterTick(s, k);
      EndTickExpected(s, k);
    }
    FiresSerials(s);
  }

  lemma EndTickSettled(s: Sched, k: nat)
    requires Inv(s) && k < |s.births| && !Listed(EndTick(s).queue, k)
    ensures Settled(EndTick(s), k)
  {
    if Listed(s.queue, k) {
      var e :| e in s.queue && e.serial == k;
      assert Pending(s, e);
      if e.due != s.now { FilterMember((e: Entry) => e.due != s.now, s.queue, e); assert false; }
      FilterMember((e: Entry) => e.due == s.now, s.queue, e);
    } else {
      assert Settled(s, k);
    }
  }

  /** Ending a recurring event after it fired leaves what was expected of it unchanged. */
  lemma EndTickExpected(s: Sched, k: nat)
    requires Inv(s) && k < |s.births|
    ensures var b, b' := s.births[k], EndTick(s).births[k];
            Expected(b', EndOf(b', s.now + 1)) == Expected(b, EndOf(b, s.now + 1))
  {
    var b, b' := s.births[k], EndTick(s).births[k];
    ExpectedIgnoresEnd(b, b', EndOf(b', s.now + 1));
    if b' != b {
      var e :| e in DueAt(s.queue, s.now) && e.serial == k && e.recur;
      assert e in s.queue && Pending(s, e);
    }
  }

  lemma {:induction false} ExpectedIgnoresEnd(b: Birth, b': Birth, end: nat)
    requires b' == b.(ended := b'.ended)
    ensures Expected(b, end) == Expected(b', end)
  {
    if end > 0 { ExpectedIgnoresEnd(b, b', end - 1); }
  }

  // ------------------------------------------------------------------
  // Every run
  // ------------------------------------------------------------------

  datatype Op = OpInsert(id: nat, period: nat, recur: bool) | OpRemove(serial: nat) | OpTick | OpEndTick

  /** A recurring insertion without delay is refused; only pending insertions can be removed. */
  ghost function Apply(s: Sched, op: Op): Sched {
    match op
    case OpInsert(id, period, recur) => if recur && period == 0 then s else Insert(s, id, period, recur)
    case OpRemove(serial) => if serial < |s.births| && Listed(s.queue, serial) then Remove(s, serial) else s
    case OpTick => Tick(s)
    case OpEndTick => EndTick(s)
  }

  ghost function Run(ops: seq<Op>): Sched {
    if ops == [] then Empty else Apply(Run(ops[..|ops| - 1]), ops[|ops| - 1])
  }

  lemma {:induction false} RunInv(ops: seq<Op>)
    ensures Inv(Run(ops))
  {
    if ops != [] {
      RunInv(ops[..|ops| - 1]);
      var s := Run(ops[..|ops| - 1]);
      match ops[|ops| - 1]
      case OpInsert(id, period, recur) => if !(recur && period == 0) { InsertInv(s, id, period, recur); }
      case OpRemove(serial) => if serial < |s.births| && Listed(s.queue, serial) { RemoveInv(s, serial); }
      case OpTick => TickInv(s);
      case OpEndTick => EndTickInv(s);
    }
  }

  /** In every run, each insertion has fired exactly at the ticks it must, up to now or to its removal. */
  lemma FiresExactly(ops: seq<Op>, k: nat)
    requires k < |Run(ops).births|
    ensures var s := Run(ops);
            TicksOf(s.log, k) == Expected(s.births[k], EndOf(s.births[k], s.now))
  {
    RunInv(ops);
  }

  lemma {:induction false} OneShotOnce(b: Birth, end: nat)
    requires !b.recur
    ensures Expected(b, end) == if b.at + b.period < end then [b.at + b.period] else []
  {
    if end > 0 { OneShotOnce(b, end - 1); }
  }

  lemma {:induction false} RecurringEvery(b: Birth, end: nat, t: nat)
    requires b.recur && b.period > 0
    ensures t in Expected(b, end) <==> t < end && exists j: nat :: j > 0 && t == b.at + j * b.period
  {
    if end > 0 {
      RecurringEvery(b, end - 1, t);
      if t == end - 1 { MultipleIffMod(b, t); }
    }
  }

  lemma MultipleIffMod(b: Birth, t: nat)
    requires b.recur && b.period > 0
    ensures FiresAt(b, t) <==> exists j: nat :: j > 0 && t == b.at + j * b.period
  {
    if FiresAt(b, t) {
      var d := t - b.at;
      DivFacts(d, b.period);
      var j := d / b.period;
      assert j > 0 && t == b.at + j * b.period;
    }
    if j: nat :| j > 0 && t == b.at + j * b.period {
      MulLe(1, j, b.period);
      DivModUnique(j * b.period, b.period, j, 0);
    }
  }

  // ------------------------------------------------------------------
  // The same, said from the operations alone
  // ------------------------------------------------------------------

  function TickCount(ops: seq<Op>): nat {
    if ops == [] then 0
    else TickCount(ops[..|ops| - 1]) + if ops[|ops| - 1].OpTick? || ops[|ops| - 1].OpEndTick? then 1 else 0
  }

  lemma {:induction false} NowIs(ops: seq<Op>)
    ensures Run(ops).now == TickCount(ops)
  {
    if ops != [] { NowIs(ops[..|ops| - 1]); }
  }

  lemma RunSnoc(ops: seq<Op>, op: Op)
    ensures Run(ops + [op]) == Apply(Run(ops), op)
    ensures TickCount(ops + [op]) == TickCount(ops) + if op.OpTick? || op.OpEndTick? then 1 else 0
  {
    assert (ops + [op])[..|ops|] == ops;
  }

  /** An operation that does not end an insertion leaves its record alone. */
  lemma BirthStays(s: Sched, op: Op, k: nat)
    requires Inv(s) && k < |s.births| && op != OpRemove(k) && (op.OpEndTick? ==> !s.births[k].recur)
    ensures k < |Apply(s, op).births| && Apply(s, op).births[k] == s.births[k]
  {
    if op.OpEndTick? {
      forall e <- DueAt(s.queue, s.now) | e.serial == k ensures !e.recur { assert e in s.queue && Pending(s, e); }
    }
  }

  /** Entries and firings of insertion `k` name object `id`. */
  ghost predicate Names(s: Sched, k: nat, id: nat) {
    && (forall e <- s.queue :: e.serial == k ==> e.id == id)
    && (forall f <- s.log :: f.serial == k ==> f.id == id)
  }

  lemma TickNames(s: Sched, k: nat, id: nat)
    requires Names(s, k, id)
    ensures Names(Tick(s), k, id) && Names(EndTick(s), k, id)
  {
    var fired := DueAt(s.queue, s.now);
    forall e <- Tick(s).queue | e.serial == k ensures e.id == id { TickQueue(s.queue, s.now, e); }
    forall f <- Fires(fired, s.now) | f.serial == k ensures f.id == id {
      var i :| 0 <= i < |fired| && f == Fires(fired, s.now)[i];
      assert fired[i] in fired;
    }
  }

  lemma ApplyNames(s: Sched, op: Op, k: nat, id: nat)
    requires Names(s, k, id) && k < |s.births|
    ensures Names(Apply(s, op), k, id)
  {
    hide Tick, EndTick;
    if op.OpTick? || op.OpEndTick? { TickNames(s, k, id); }
  }

  /** Nothing in `ops` ends insertion `k`, which recurs or not. */
  ghost predicate Spared(ops: seq<Op>, k: nat, recur: bool) {
    forall op <- ops :: op != OpRemove(k) && !(recur && op.OpEndTick?)
  }

  /** What an accepted insertion leaves behind as long as it is spared. */
  lemma {:induction false} InsertedStays(pre: seq<Op>, id: nat, period: nat, recur: bool, post: seq<Op>)
    requires !(recur && period == 0) && Spared(post, |Run(pre).births|, recur)
    ensures var k, s := |Run(pre).births|, Run(pre + [OpInsert(id, period, recur)] + post);
            && k < |s.births| && s.births[k] == Birth(TickCount(pre), period, recur, None) && Names(s, k, id)
    decreases |post|
  {
    hide Inv, Tick, EndTick, Run, Names, Apply;
    var k, first := |Run(pre).births|, pre + [OpInsert(id, period, recur)];
    if post == [] {
      assert first + post == first;
      RunSnoc(pre, OpInsert(id, period, recur));
      NowIs(pre);
      RunInv(pre);
      InsertNames(Run(pre), id, period, recur);
    } else {
      var init, op := post[..|post| - 1], post[|post| - 1];
      assert op in post && forall x <- init :: x in post;
      InsertedStays(pre, id, period, recur, init);
      var s := Run(first + init);
      assert first + post == first + init + [op];
      RunSnoc(first + init, op);
      RunInv(first + init);
      BirthStays(s, op, k);
      ApplyNames(s, op, k, id);
    }
  }

  lemma InsertNames(s: Sched, id: nat, period: nat, recur: bool)
    requires Inv(s) && !(recur && period == 0)
    ensures var s' := Apply(s, OpInsert(id, period, recur));
            && |s'.births| == |s.births| + 1 && s'.births[|s.births|] == Birth(s.now, period, recur, None)
            && Names(s', |s.births|, id)
  {
    forall e <- s.queue ensures e.serial < |s.births| { assert Pending(s, e); }
  }

  lemma {:induction false} ExpectedSorted(b: Birth, end: nat)
    ensures forall t <- Expected(b, end) :: t < end
    ensures forall i, j :: 0 <= i < j < |Expected(b, end)| ==> Expected(b, end)[i] < Expected(b, end)[j]
  {
    if end > 0 {
      ExpectedSorted(b, end - 1);
      var before := Expected(b, end - 1);
      forall i | 0 <= i < |before| ensures before[i] < end - 1 { assert before[i] in before; }
    }
  }

  /**
   * After every run: an insertion made after T ticks for o ticks ahead, and not cancelled since, has fired its own
   * object, once at tick T + o if it does not recur, and else at T + o, T + 2o and so on, each once and in order.
   */
  lemma InsertedFires(pre: seq<Op>, id: nat, period: nat, recur: bool, post: seq<Op>)
    requires !(recur && period == 0) && Spared(post, |Run(pre).births|, recur)
    ensures var all, k, T := pre + [OpInsert(id, period, recur)] + post, |Run(pre).births|, TickCount(pre);
            var fired := TicksOf(Run(all).log, k);
            && (forall f <- Run(all).log :: f.serial == k ==> f.id == id)
            && (!recur ==> fired == if T + period < TickCount(all) then [T + period] else [])
            && (recur ==> forall t: nat ::
                 t in fired <==> t < TickCount(all) && exists j: nat :: j > 0 && t == T + j * period)
            && (forall i, j :: 0 <= i < j < |fired| ==> fired[i] < fired[j])
  {
    hide Run, Expected, TicksOf;
    var all, k := pre + [OpInsert(id, period, recur)] + post, |Run(pre).births|;
    InsertedStays(pre, id, period, recur, post);
    FiresExactly(all, k);
    NowIs(all);
    var b, end := Run(all).births[k], TickCount(all);
    ExpectedSorted(b, end);
    if recur {
      forall t: nat { RecurringEvery(b, end, t); }
    } else {
      OneShotOnce(b, end);
    }
  }

  /** What is not listed stays so and fires no more. */
  lemma StaysOff(s: Sched, op: Op, k: nat)
    requires Inv(s) && k < |s.births| && !Listed(s.queue, k)
    ensures k < |Apply(s, op).births| && !Listed(Apply(s, op).queue, k)
    ensures TicksOf(Apply(s, op).log, k) == TicksOf(s.log, k)
  {
    var fired := DueAt(s.queue, s.now);
    assert !Listed(fired, k);
    forall e <- Tick(s).queue ensures e.serial != k { TickQueue(s.queue, s.now, e); }
    FilterDistinct((e: Entry) => e.due == s.now, s.queue);
    TicksOfAppend(s.log, Fires(fired, s.now), k);
    TicksOfFires(fired, s.now, k);
  }

  lemma RemovedOff(s: Sched, k: nat)
    requires Inv(s) && k < |s.births|
    ensures var s' := Apply(s, OpRemove(k)); k < |s'.births| && !Listed(s'.queue, k) && s'.log == s.log
  {}

  /** After a cancellation an insertion never fires again, whatever else happens. */
  lemma {:induction false} CancelledSilent(ops: seq<Op>, k: nat, post: seq<Op>)
    requires k < |Run(ops).births|
    ensures var s := Run(ops + [OpRemove(k)] + post);
            k < |s.births| && !Listed(s.queue, k) && TicksOf(s.log, k) == TicksOf(Run(ops).log, k)
    decreases |post|
  {
    hide Inv, Run, Apply, TicksOf, Listed;
    var first := ops + [OpRemove(k)];
    if post == [] {
      assert first + post == first;
      RunSnoc(ops, OpRemove(k));
      RunInv(ops);
      RemovedOff(Run(ops), k);
    } else {
      var init, op := post[..|post| - 1], post[|post| - 1];
      CancelledSilent(ops, k, init);
      assert first + post == first + init + [op];
      RunSnoc(first + init, op);
      RunInv(first + init);
      StaysOff(Run(first + init), op, k);
    }
  }

  /** Callbacks are made in the order of the ticks. */
  lemma {:induction false} LogSorted(ops: seq<Op>)
    ensures forall f <- Run(ops).log :: f.tick < Run(ops).now
    ensures forall i, j :: 0 <= i < j < |Run(ops).log| ==> Run(ops).log[i].tick <= Run(ops).log[j].tick
  {
    if ops != [] { LogSorted(ops[..|ops| - 1]); }
  }

  /** How the ticks are cut into executions does not matter. */
  lemma {:induction false} TicksAdd(s: Sched, a: nat, b: nat)
    ensures Ticks(Ticks(s, a), b) == Ticks(s, a + b)
  {
    hide Tick;
    if b > 0 { TicksAdd(s, a, b - 1); }
  }

  // ------------------------------------------------------------------
  // Flushing
  // ------------------------------------------------------------------

  /** The firings of `n` ticks from `t` on, when nothing is added to `q`. */
  function FlushLog(q: seq<Entry>, t: nat, n: nat): seq<Fire> {
    if n == 0 then [] else FlushLog(q, t, n - 1) + Fires(DueAt(q, t + n - 1), t + n - 1)
  }

  function NotBefore(q: seq<Entry>, t: nat): seq<Entry> { Filter((e: Entry) => e.due >= t, q) }

  lemma {:induction false} EndTicksSpec(s: Sched, n: nat)
    requires forall e <- s.queue :: s.now <= e.due
    ensures var s' := EndTicks(s, n);
            && s'.now == s.now + n
            && s'.queue == NotBefore(s.queue, s.now + n)
            && s'.log == s.log + FlushLog(s.queue, s.now, n)
  {
    hide Filter, Fires, EndAll;
    var q := s.queue;
    if n == 0 {
      FilterAll((e: Entry) => e.due >= s.now + n, q);
    } else {
      EndTicksSpec(s, n - 1);
      var t := s.now + n - 1;
      FilterFilter((e: Entry) => e.due == t, (e: Entry) => e.due >= t, (e: Entry) => e.due == t, q);
      FilterFilter((e: Entry) => e.due != t, (e: Entry) => e.due >= t, (e: Entry) => e.due >= t + 1, q);
    }
  }

  /** Flushing over the horizon fires every pending event once more, at its due tick, and nothing else. */
  lemma FlushFires(s: Sched, n: nat)
    requires Inv(s)
    requires forall e <- s.queue :: e.due < s.now + n
    ensures var s' := EndTicks(s, n);
            && s'.queue == [] && s'.now == s.now + n
            && (forall e <- s.queue :: TicksOf(s'.log, e.serial) == TicksOf(s.log, e.serial) + [e.due])
            && (forall k: nat :: !Listed(s.queue, k) ==> TicksOf(s'.log, k) == TicksOf(s.log, k))
  {
    hide TicksOf, FlushLog, Filter;
    forall e <- s.queue ensures s.now <= e.due { assert Pending(s, e); }
    EndTicksSpec(s, n);
    FilterNone((e: Entry) => e.due >= s.now + n, s.queue);
    forall k: nat { TicksOfAppend(s.log, FlushLog(s.queue, s.now, n), k); }
    forall e <- s.queue { FlushLogPending(s.queue, s.now, n, e); }
    forall k: nat | !Listed(s.queue, k) { FlushLogOther(s.queue, s.now, n, k); }
  }

  lemma {:induction false} FlushLogPending(q: seq<Entry>, t: nat, n: nat, e: Entry)
    requires Distinct(q) && e in q && t <= e.due
    ensures TicksOf(FlushLog(q, t, n), e.serial) == if e.due < t + n then [e.due] else []
  {
    hide TicksOf, Fires, DueAt, Distinct, Listed;
    if n == 0 {
      TicksOfNone(e.serial);
    } else {
      var last := t + n - 1;
      var due := DueAt(q, last);
      FlushLogPending(q, t, n - 1, e);
      TicksOfAppend(FlushLog(q, t, n - 1), Fires(due, last), e.serial);
      DueListed(q, last, e);
      TicksOfFires(due, last, e.serial);
    }
  }

  lemma DueListed(q: seq<Entry>, t: nat, e: Entry)
    requires Distinct(q) && e in q
    ensures Distinct(DueAt(q, t))
    ensures Listed(DueAt(q, t), e.serial) <==> e.due == t
  {
    FilterDistinct((e: Entry) => e.due == t, q);
    if e.due == t { FilterMember((e: Entry) => e.due == t, q, e); }
    forall o <- DueAt(q, t) | o.serial == e.serial ensures o == e { SameSerial(q, o, e); }
  }

  lemma TicksOfNone(k: nat)
    ensures TicksOf([], k) == []
  {}

  lemma {:induction false} FlushLogOther(q: seq<Entry>, t: nat, n: nat, k: nat)
    requires Distinct(q) && !Listed(q, k)
    ensures TicksOf(FlushLog(q, t, n), k) == []
  {
    if n > 0 {
      hide TicksOf, Fires;
      var last := t + n - 1;
      FlushLogOther(q, t, n - 1, k);
      TicksOfAppend(FlushLog(q, t, n - 1), Fires(DueAt(q, last), last), k);
      FilterDistinct((e: Entry) => e.due == last, q);
      TicksOfFires(DueAt(q, last), last, k);
    } else {
      assert FlushLog(q, t, 0) == [];
    }
  }

  /** A flush fires in the order of the due ticks. */
  lemma {:induction false} FlushSorted(q: seq<Entry>, t: nat, n: nat)
    ensures forall i, j :: 0 <= i < j < |FlushLog(q, t, n)| ==> FlushLog(q, t, n)[i].tick <= FlushLog(q, t, n)[j].tick
    ensures forall f <- FlushLog(q, t, n) :: f.tick < t + n
  {
    if n > 0 { FlushSorted(q, t, n - 1); }
  }
}
