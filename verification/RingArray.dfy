/**
 * ring_array (src/cc_ring_array.c) as a protocol between one producer and one
 * consumer thread. Loads, stores and copies are separate steps, and a copy has
 * a beginning and an end, so that the other thread can run in between; a slot
 * holds no value while it is being written. Memory is sequentially consistent.
 *
 * The state carries its own history: what was pushed, and what became of each
 * element. Positions are what the code sees; counts are the history's view.
 */
module RingArray {
  import opened Bytes
  import opened Arith

  /** What the consumer did with the i-th element pushed. */
  datatype Removal<E> = Popped(value: E) | Discarded | Flushed

  datatype Producer<E> =
    | PIdle
    | PLoaded(elem: E, rpos: nat, rcount: nat)  // rpos as loaded, and the count it stood for
    | PWriting(elem: E)
    | PWritten(elem: E)

  datatype Consumer<E> =
    | CIdle
    | CLoaded(keep: bool, wpos: nat, wcount: nat)  // keep: elem is not NULL
    | CReading
    | CRead(value: Option<E>)
    | CFlushing(wpos: nat, wcount: nat)

  datatype State<E> = State(
    cap: nat,
    data: seq<Option<E>>,
    rpos: nat,
    wpos: nat,
    prod: Producer<E>,
    cons: Consumer<E>,
    pushed: seq<E>,
    removed: seq<Removal<E>>,
    full: seq<int>,   // number of elements at the load of each refused push
    empty: seq<int>)  // number of elements at the load of each refused pop

  datatype Step<E> =
    | PushLoad(elem: E) | PushCheck | PushCopied | PushStore
    | PopLoad(keep: bool) | PopCheck | PopCopied | PopStore
    | FlushLoad | FlushStore

  function Nelem(rpos: nat, wpos: nat, cap: nat): int {
    if rpos <= wpos then wpos - rpos else wpos + (cap - rpos + 1)
  }

  function Init<E>(cap: nat): State<E> {
    State(cap, seq(cap + 1, _ => None), 0, 0, PIdle, CIdle, [], [], [], [])
  }

  function AllFlushed<E>(n: int): seq<Removal<E>> { seq(if n < 0 then 0 else n, _ => Flushed) }

  function Put<E>(data: seq<Option<E>>, pos: nat, v: Option<E>): seq<Option<E>> {
    if pos < |data| then data[pos := v] else data
  }

  function Get<E>(data: seq<Option<E>>, pos: nat): Option<E> {
    if pos < |data| then data[pos] else None
  }

  ghost predicate Enabled<E>(s: State<E>, t: Step<E>) {
    match t
    case PushLoad(_) => s.prod.PIdle?
    case PushCheck => s.prod.PLoaded?
    case PushCopied => s.prod.PWriting?
    case PushStore => s.prod.PWritten?
    case PopLoad(_) => s.cons.CIdle?
    case PopCheck => s.cons.CLoaded?
    case PopCopied => s.cons.CReading?
    case PopStore => s.cons.CRead?
    case FlushLoad => s.cons.CIdle?
    case FlushStore => s.cons.CFlushing?
  }

  ghost function Next<E>(s: State<E>, t: Step<E>): State<E>
    requires Enabled(s, t)
  {
    match t
    case PushLoad(e) => s.(prod := PLoaded(e, s.rpos, |s.removed|))
    case PushCheck =>
      if Nelem(s.prod.rpos, s.wpos, s.cap) == s.cap
      then s.(prod := PIdle, full := s.full + [|s.pushed| - s.prod.rcount])
      else s.(prod := PWriting(s.prod.elem), data := Put(s.data, s.wpos, None))
    case PushCopied => s.(prod := PWritten(s.prod.elem), data := Put(s.data, s.wpos, Some(s.prod.elem)))
    case PushStore =>
      s.(prod := PIdle, wpos := (s.wpos + 1) % (s.cap + 1), pushed := s.pushed + [s.prod.elem])
    case PopLoad(keep) => s.(cons := CLoaded(keep, s.wpos, |s.pushed|))
    case PopCheck =>
      if Nelem(s.rpos, s.cons.wpos, s.cap) == 0 then s.(cons := CIdle, empty := s.empty + [s.cons.wcount - |s.removed|])
      else if s.cons.keep then s.(cons := CReading)
      else s.(cons := CRead(None))
    case PopCopied => s.(cons := CRead(Get(s.data, s.rpos)))
    case PopStore =>
      s.(cons := CIdle, rpos := (s.rpos + 1) % (s.cap + 1),
         removed := s.removed + [if s.cons.value.Some? then Popped(s.cons.value.value) else Discarded])
    case FlushLoad => s.(cons := CFlushing(s.wpos, |s.pushed|))
    case FlushStore =>
      s.(cons := CIdle, rpos := s.cons.wpos,
         removed := s.removed + AllFlushed(s.cons.wcount - |s.removed|))
  }

  // ------------------------------------------------------------------
  // Invariant
  // ------------------------------------------------------------------

  /** The position that stands for a count. */
  function At(count: nat, cap: nat): (pos: nat)
    ensures pos <= cap
  {
    count % (cap + 1)
  }

  ghost predicate Positions<E>(s: State<E>) {
    && |s.data| == s.cap + 1
    && s.wpos == At(|s.pushed|, s.cap) && s.rpos == At(|s.removed|, s.cap)
    && |s.removed| <= |s.pushed| <= |s.removed| + s.cap
  }

  ghost predicate ProducerInv<E>(s: State<E>) {
    match s.prod
    case PIdle => true
    case PLoaded(_, rpos, rcount) =>
      rpos == At(rcount, s.cap) && rcount <= |s.removed| && |s.pushed| <= rcount + s.cap
    case PWriting(_) => |s.pushed| < |s.removed| + s.cap
    case PWritten(e) => |s.pushed| < |s.removed| + s.cap && Get(s.data, s.wpos) == Some(e)
  }

  ghost predicate ConsumerInv<E>(s: State<E>) {
    match s.cons
    case CIdle => true
    case CLoaded(_, wpos, wcount) => wpos == At(wcount, s.cap) && |s.removed| <= wcount <= |s.pushed|
    case CReading => |s.removed| < |s.pushed|
    case CRead(v) => |s.removed| < |s.pushed| && (v.Some? ==> v.value == s.pushed[|s.removed|])
    case CFlushing(wpos, wcount) => wpos == At(wcount, s.cap) && |s.removed| <= wcount <= |s.pushed|
  }

  /** Everything pushed and not yet removed is in its slot, whole. */
  ghost predicate Stored<E>(s: State<E>)
    requires Positions(s)
  {
    forall i :: |s.removed| <= i < |s.pushed| ==> s.data[At(i, s.cap)] == Some(s.pushed[i])
  }

  /** Removals follow the pushed sequence, element by element. */
  ghost predicate InOrder<E>(s: State<E>)
    requires Positions(s)
  {
    forall i :: 0 <= i < |s.removed| && s.removed[i].Popped? ==> s.removed[i].value == s.pushed[i]
  }

  /** A refusal happens only when the ring was full, or empty, at the instant of the load. */
  ghost predicate HonestRefusals<E>(s: State<E>) {
    (forall n <- s.full :: n == s.cap) && (forall n <- s.empty :: n == 0)
  }

  ghost predicate Inv<E>(s: State<E>) {
    && Positions(s) && ProducerInv(s) && ConsumerInv(s) && Stored(s) && InOrder(s) && HonestRefusals(s)
  }

  /** Both threads at work on one slot, one of them writing it. */
  ghost predicate Race<E>(s: State<E>) { s.prod.PWriting? && s.cons.CReading? && s.wpos == s.rpos }

  lemma SlotsDiffer(a: nat, b: nat, cap: nat)
    requires a < b <= a + cap
    ensures At(a, cap) != At(b, cap)
  {
    ModAddCases(a, b - a, cap + 1);
  }

  lemma NelemCounts(r: nat, w: nat, cap: nat)
    requires r <= w <= r + cap
    ensures Nelem(At(r, cap), At(w, cap), cap) == w - r
  {
    ModAddCases(r, w - r, cap + 1);
  }

  lemma AtNext(count: nat, cap: nat)
    ensures (At(count, cap) + 1) % (cap + 1) == At(count + 1, cap)
  {
    ModAdd(count, 1, cap + 1);
  }

  lemma InitInv<E>(cap: nat)
    ensures Inv(Init<E>(cap))
  {
    DivModUnique(0, cap + 1, 0, 0);
  }

  lemma PushCheckInv<E>(s: State<E>)
    requires Inv(s) && s.prod.PLoaded?
    ensures Inv(Next(s, PushCheck))
  {
    NelemCounts(s.prod.rcount, |s.pushed|, s.cap);
    hide At;
    forall i | |s.removed| <= i < |s.pushed| ensures At(i, s.cap) != s.wpos { SlotsDiffer(i, |s.pushed|, s.cap); }
  }

  lemma PushCopiedInv<E>(s: State<E>)
    requires Inv(s) && s.prod.PWriting?
    ensures Inv(Next(s, PushCopied))
  {
    hide At;
    forall i | |s.removed| <= i < |s.pushed| ensures At(i, s.cap) != s.wpos { SlotsDiffer(i, |s.pushed|, s.cap); }
  }

  lemma PushStoreInv<E>(s: State<E>)
    requires Inv(s) && s.prod.PWritten?
    ensures Inv(Next(s, PushStore))
  {
    AtNext(|s.pushed|, s.cap);
    hide At;
  }

  lemma PopStepInv<E>(s: State<E>, t: Step<E>)
    requires Inv(s) && Enabled(s, t) && (t.PopCheck? || t.PopCopied? || t.PopStore?)
    ensures Inv(Next(s, t))
  {
    if t.PopCheck? { NelemCounts(|s.removed|, s.cons.wcount, s.cap); }
    AtNext(|s.removed|, s.cap);
    hide At;
  }

  lemma FlushStoreInv<E>(s: State<E>)
    requires Inv(s) && s.cons.CFlushing?
    ensures Inv(Next(s, FlushStore))
  {
    hide At;
    var n := s.cons.wcount - |s.removed|;
    assert |Next(s, FlushStore).removed| == s.cons.wcount;
  }

  lemma NextInv<E>(s: State<E>, t: Step<E>)
    requires Inv(s) && Enabled(s, t)
    ensures Inv(Next(s, t))
  {
    match t
    case PushLoad(_) =>
    case PushCheck => PushCheckInv(s);
    case PushCopied => PushCopiedInv(s);
    case PushStore => PushStoreInv(s);
    case PopLoad(_) =>
    case PopCheck => PopStepInv(s, t);
    case PopCopied => PopStepInv(s, t);
    case PopStore => PopStepInv(s, t);
    case FlushLoad =>
    case FlushStore => FlushStoreInv(s);
  }

  // ------------------------------------------------------------------
  // Every interleaving
  // ------------------------------------------------------------------

  /** The state after a schedule, if every step was enabled where it was taken. */
  ghost function Run<E>(cap: nat, steps: seq<Step<E>>): Option<State<E>>
    decreases |steps|
  {
    if steps == [] then Some(Init(cap))
    else
      var p := Run(cap, steps[..|steps| - 1]);
      var t := steps[|steps| - 1];
      if p.None? || !Enabled(p.value, t) then None else Some(Next(p.value, t))
  }

  lemma {:induction false} RunInv<E>(cap: nat, steps: seq<Step<E>>)
    ensures Run(cap, steps).Some? ==> Inv(Run(cap, steps).value) && Run(cap, steps).value.cap == cap
    decreases |steps|
  {
    hide Inv, Next;
    if steps == [] {
      InitInv<E>(cap);
    } else {
      var p := Run(cap, steps[..|steps| - 1]);
      RunInv(cap, steps[..|steps| - 1]);
      if p.Some? && Enabled(p.value, steps[|steps| - 1]) {
        NextInv(p.value, steps[|steps| - 1]);
        NextCap(p.value, steps[|steps| - 1]);
      }
    }
  }

  lemma NextCap<E>(s: State<E>, t: Step<E>)
    requires Enabled(s, t)
    ensures Next(s, t).cap == s.cap
  {}

  /** A kept element is never read torn: the copy always finds a whole value. */
  lemma ReadsWhole<E>(cap: nat, steps: seq<Step<E>>)
    requires Run(cap, steps).Some? && Run(cap, steps).value.cons.CReading?
    ensures var s := Run(cap, steps).value;
            |s.removed| < |s.pushed| && Next(s, PopCopied).cons == CRead(Some(s.pushed[|s.removed|]))
  {
    RunInv(cap, steps);
  }

  // ------------------------------------------------------------------
  // What the callers see, said from their own steps
  // ------------------------------------------------------------------

  /** Whether the latest pop begun wants its element. */
  function LastKeep<E>(steps: seq<Step<E>>): Option<bool> {
    if steps == [] then None
    else
      var t := steps[|steps| - 1];
      if t.PopLoad? then Some(t.keep) else LastKeep(steps[..|steps| - 1])
  }

  /** For each pop that came to its end, whether it wanted its element. */
  function PopsDone<E>(steps: seq<Step<E>>): seq<bool> {
    if steps == [] then []
    else
      var init, t := steps[..|steps| - 1], steps[|steps| - 1];
      PopsDone(init) + if t.PopStore? && LastKeep(init).Some? then [LastKeep(init).value] else []
  }

  /** For each removal by a pop, whether it delivered. */
  function Deliveries<E>(removed: seq<Removal<E>>): seq<bool> {
    if removed == [] then []
    else
      var r := removed[|removed| - 1];
      Deliveries(removed[..|removed| - 1]) + if r.Flushed? then [] else [r.Popped?]
  }

  /** The element of the latest push begun. */
  function LastElem<E>(steps: seq<Step<E>>): Option<E> {
    if steps == [] then None
    else
      var t := steps[|steps| - 1];
      if t.PushLoad? then Some(t.elem) else LastElem(steps[..|steps| - 1])
  }

  /** The elements of the pushes that came to their end. */
  function PushesDone<E>(steps: seq<Step<E>>): seq<E> {
    if steps == [] then []
    else
      var init, t := steps[..|steps| - 1], steps[|steps| - 1];
      PushesDone(init) + if t.PushStore? && LastElem(init).Some? then [LastElem(init).value] else []
  }

  /** Between its steps, each thread still knows what its call is about. */
  ghost predicate Remembers<E>(s: State<E>, steps: seq<Step<E>>) {
    && (match s.cons
        case CLoaded(keep, _, _) => LastKeep(steps) == Some(keep)
        case CReading => LastKeep(steps) == Some(true)
        case CRead(v) => LastKeep(steps) == Some(v.Some?)
        case _ => true)
    && (match s.prod
        case PIdle => true
        case PLoaded(e, _, _) => LastElem(steps) == Some(e)
        case PWriting(e) => LastElem(steps) == Some(e)
        case PWritten(e) => LastElem(steps) == Some(e))
  }

  lemma DeliveriesSnoc<E>(removed: seq<Removal<E>>, r: Removal<E>)
    ensures Deliveries(removed + [r]) == Deliveries(removed) + if r.Flushed? then [] else [r.Popped?]
  {
    assert (removed + [r])[..|removed|] == removed;
  }

  lemma {:induction false} DeliveriesFlush<E>(removed: seq<Removal<E>>, n: nat)
    ensures Deliveries(removed + AllFlushed(n)) == Deliveries(removed)
  {
    if n == 0 {
      assert removed + AllFlushed(n) == removed;
    } else {
      DeliveriesFlush(removed, n - 1);
      DeliveriesSnoc(removed + AllFlushed(n - 1), Flushed);
      assert removed + AllFlushed(n - 1) + [Flushed] == removed + AllFlushed(n);
    }
  }

  lemma NextRemembers<E>(cap: nat, steps: seq<Step<E>>, t: Step<E>)
    requires Run(cap, steps).Some? && Enabled(Run(cap, steps).value, t) && Remembers(Run(cap, steps).value, steps)
    ensures Remembers(Next(Run(cap, steps).value, t), steps + [t])
  {
    hide Run, Inv;
    var s := Run(cap, steps).value;
    assert (steps + [t])[..|steps|] == steps;
    if t.PopCopied? { ReadsWhole(cap, steps); }
  }

  lemma DoneSnoc<E>(steps: seq<Step<E>>, t: Step<E>)
    ensures PopsDone(steps + [t]) == PopsDone(steps) + if t.PopStore? && LastKeep(steps).Some? then [LastKeep(steps).value] else []
    ensures PushesDone(steps + [t]) == PushesDone(steps) + if t.PushStore? && LastElem(steps).Some? then [LastElem(steps).value] else []
  {
    assert (steps + [t])[..|steps|] == steps;
  }

  lemma NextDone<E>(s: State<E>, steps: seq<Step<E>>, t: Step<E>)
    requires Enabled(s, t) && Remembers(s, steps)
    requires Deliveries(s.removed) == PopsDone(steps) && s.pushed == PushesDone(steps)
    ensures Deliveries(Next(s, t).removed) == PopsDone(steps + [t]) && Next(s, t).pushed == PushesDone(steps + [t])
  {
    hide Deliveries, PopsDone, PushesDone, LastKeep, LastElem, AllFlushed;
    DoneSnoc(steps, t);
    if t.PopStore? {
      DeliveriesSnoc(s.removed, if s.cons.value.Some? then Popped(s.cons.value.value) else Discarded);
    } else if t.FlushStore? {
      var n := s.cons.wcount - |s.removed|;
      FlushedNone<E>(n);
      DeliveriesFlush(s.removed, if n < 0 then 0 else n);
    }
  }

  lemma FlushedNone<E>(n: int)
    ensures AllFlushed<E>(n) == AllFlushed<E>(if n < 0 then 0 else n)
  {}

  /**
   * Under every interleaving, the elements pushed are those of the completed pushes, in order, and a completed pop
   * delivers its element if and only if it was given a place for it.
   */
  lemma {:induction false} EveryCallDone<E>(cap: nat, steps: seq<Step<E>>)
    requires Run(cap, steps).Some?
    ensures var s := Run(cap, steps).value;
            Remembers(s, steps) && s.pushed == PushesDone(steps) && Deliveries(s.removed) == PopsDone(steps)
    decreases |steps|
  {
    hide Next, Enabled, Remembers, Deliveries, PopsDone, PushesDone, Inv;
    if steps == [] {
      NothingDone<E>(cap);
    } else {
      var init, t := steps[..|steps| - 1], steps[|steps| - 1];
      EveryCallDone(cap, init);
      NextRemembers(cap, init, t);
      NextDone(Run(cap, init).value, init, t);
      assert init + [t] == steps;
    }
  }

  /**
   * Under every interleaving no slot is written while it is read and at most cap elements are stored; the elements
   * pushed are those of the completed pushes, in order, and the i-th removal, if it is a delivery, delivers the i-th of
   * them; completed pops deliver exactly when they were given a place to; refusals are exact at the instant of their load.
   */
  lemma EveryInterleaving<E>(cap: nat, steps: seq<Step<E>>)
    requires Run(cap, steps).Some?
    ensures var s := Run(cap, steps).value;
            && !Race(s)
            && |s.removed| <= |s.pushed| <= |s.removed| + cap
            && s.pushed == PushesDone(steps) && Deliveries(s.removed) == PopsDone(steps)
            && (forall i :: 0 <= i < |s.removed| && s.removed[i].Popped? ==> s.removed[i].value == s.pushed[i])
            && HonestRefusals(s)
  {
    hide Run, Deliveries, PopsDone, PushesDone, Remembers;
    RunInv(cap, steps);
    EveryCallDone(cap, steps);
    var s := Run(cap, steps).value;
    if s.prod.PWriting? && s.cons.CReading? { SlotsDiffer(|s.removed|, |s.pushed|, cap); }
  }

  lemma NothingDone<E>(cap: nat)
    ensures Remembers(Init<E>(cap), []) && Deliveries<E>([]) == [] && PopsDone<E>([]) == [] && PushesDone<E>([]) == []
  {}

  lemma {:induction false} DeliveriesHold<E>(removed: seq<Removal<E>>, r: Removal<E>)
    requires r in removed && !r.Flushed?
    ensures r.Popped? in Deliveries(removed)
  {
    if r != removed[|removed| - 1] { DeliveriesHold(removed[..|removed| - 1], r); }
  }

  lemma {:induction false} AllAlike<E>(steps: seq<Step<E>>, keep: bool)
    requires forall t <- steps :: t.PopLoad? ==> t.keep == keep
    ensures LastKeep(steps).Some? ==> LastKeep(steps).value == keep
    ensures forall b <- PopsDone(steps) :: b == keep
  {
    if steps != [] {
      assert forall t <- steps[..|steps| - 1] :: t in steps;
      AllAlike(steps[..|steps| - 1], keep);
    }
  }

  /** If every pop wants its element nothing is discarded, and if none does nothing is delivered. */
  lemma NoneDiscarded<E>(cap: nat, steps: seq<Step<E>>, keep: bool)
    requires Run(cap, steps).Some? && forall t <- steps :: t.PopLoad? ==> t.keep == keep
    ensures forall r <- Run(cap, steps).value.removed :: if keep then !r.Discarded? else !r.Popped?
  {
    hide Run, Deliveries, PopsDone, Remembers;
    EveryCallDone(cap, steps);
    AllAlike(steps, keep);
    var s := Run(cap, steps).value;
    forall r | r in s.removed && !r.Flushed? ensures r.Popped? == keep { DeliveriesHold(s.removed, r); }
  }

  predicate IsProducers<E>(t: Step<E>) { t.PushLoad? || t.PushCheck? || t.PushCopied? || t.PushStore? }

  /** While only one thread takes steps, the other stays where it is. */
  lemma {:induction false} OtherStays<E>(cap: nat, steps: seq<Step<E>>, mid: seq<Step<E>>, producer: bool)
    requires (forall t <- mid :: IsProducers(t) == producer) && Run(cap, steps + mid).Some?
    ensures Run(cap, steps).Some?
    ensures var a, b := Run(cap, steps).value, Run(cap, steps + mid).value;
            if producer then b.cons == a.cons && b.rpos == a.rpos && b.removed == a.removed && b.empty == a.empty
            else b.prod == a.prod && b.wpos == a.wpos && b.pushed == a.pushed && b.full == a.full
    decreases |mid|
  {
    if mid == [] {
      assert steps + mid == steps;
    } else {
      var init, t := mid[..|mid| - 1], mid[|mid| - 1];
      assert (steps + mid)[..|steps + mid| - 1] == steps + init;
      assert t in mid && forall x <- init :: x in mid;
      OtherStays(cap, steps, init, producer);
      StepStays(Run(cap, steps + init).value, t);
    }
  }

  lemma StepStays<E>(s: State<E>, t: Step<E>)
    requires Enabled(s, t)
    ensures var b := Next(s, t);
            if IsProducers(t) then b.cons == s.cons && b.rpos == s.rpos && b.removed == s.removed && b.empty == s.empty
            else b.prod == s.prod && b.wpos == s.wpos && b.pushed == s.pushed && b.full == s.full
  {}

  lemma RunSnoc<E>(cap: nat, steps: seq<Step<E>>, t: Step<E>)
    requires Run(cap, steps + [t]).Some?
    ensures Run(cap, steps).Some? && Enabled(Run(cap, steps).value, t)
    ensures Run(cap, steps + [t]).value == Next(Run(cap, steps).value, t)
  {
    assert (steps + [t])[..|steps|] == steps;
  }

  /** A flush removes everything pushed before its load and nothing else, whatever is pushed meanwhile. */
  lemma FlushTakesAll<E>(cap: nat, steps: seq<Step<E>>, mid: seq<Step<E>>)
    requires (forall t <- mid :: IsProducers(t)) && Run(cap, steps + [FlushLoad] + mid + [FlushStore]).Some?
    ensures Run(cap, steps).Some?
    ensures var a, b := Run(cap, steps).value, Run(cap, steps + [FlushLoad] + mid + [FlushStore]).value;
            && |b.removed| == |a.pushed| && a.removed <= b.removed
            && (forall i :: |a.removed| <= i < |b.removed| ==> b.removed[i].Flushed?)
            && (mid == [] ==> Nelem(b.rpos, b.wpos, cap) == 0)
  {
    hide Run, Inv;
    RunSnoc(cap, steps + [FlushLoad] + mid, FlushStore);
    OtherStays(cap, steps + [FlushLoad], mid, true);
    RunSnoc(cap, steps, FlushLoad);
    RunInv(cap, steps);
    FlushLeaves(Run(cap, steps).value, Run(cap, steps + [FlushLoad] + mid).value);
    if mid == [] {
      assert steps + [FlushLoad] + mid == steps + [FlushLoad];
    }
  }

  lemma FlushLeaves<E>(a: State<E>, m: State<E>)
    requires Inv(a) && m.cons == CFlushing(a.wpos, |a.pushed|) && m.removed == a.removed
    ensures var b := Next(m, FlushStore);
            && b.rpos == a.wpos && |b.removed| == |a.pushed| && a.removed <= b.removed
            && (forall i :: |a.removed| <= i < |b.removed| ==> b.removed[i].Flushed?)
  {}

  /** A push is refused if and only if the ring was full at its load, whatever is popped meanwhile. */
  lemma PushRefusedIff<E>(cap: nat, steps: seq<Step<E>>, e: E, mid: seq<Step<E>>)
    requires (forall t <- mid :: !IsProducers(t)) && Run(cap, steps + [PushLoad(e)] + mid + [PushCheck]).Some?
    ensures Run(cap, steps).Some?
    ensures var a, b := Run(cap, steps).value, Run(cap, steps + [PushLoad(e)] + mid + [PushCheck]).value;
            b.prod == (if |a.pushed| - |a.removed| == cap then PIdle else PWriting(e)) && b.pushed == a.pushed
  {
    hide Run, Inv;
    RunSnoc(cap, steps + [PushLoad(e)] + mid, PushCheck);
    OtherStays(cap, steps + [PushLoad(e)], mid, false);
    RunSnoc(cap, steps, PushLoad(e));
    RunInv(cap, steps);
    RunInv(cap, steps + [PushLoad(e)] + mid);
    CountedAtLoad(Run(cap, steps).value);
  }

  /** A pop is refused if and only if the ring was empty at its load, whatever is pushed meanwhile. */
  lemma PopRefusedIff<E>(cap: nat, steps: seq<Step<E>>, keep: bool, mid: seq<Step<E>>)
    requires (forall t <- mid :: IsProducers(t)) && Run(cap, steps + [PopLoad(keep)] + mid + [PopCheck]).Some?
    ensures Run(cap, steps).Some?
    ensures var a, b := Run(cap, steps).value, Run(cap, steps + [PopLoad(keep)] + mid + [PopCheck]).value;
            b.cons.CIdle? <==> |a.pushed| == |a.removed|
  {
    hide Run, Inv;
    RunSnoc(cap, steps + [PopLoad(keep)] + mid, PopCheck);
    OtherStays(cap, steps + [PopLoad(keep)], mid, true);
    RunSnoc(cap, steps, PopLoad(keep));
    RunInv(cap, steps);
    RunInv(cap, steps + [PopLoad(keep)] + mid);
    CountedAtLoad(Run(cap, steps).value);
  }

  lemma CountedAtLoad<E>(s: State<E>)
    requires Inv(s)
    ensures Nelem(s.rpos, s.wpos, s.cap) == |s.pushed| - |s.removed|
  {
    NelemCounts(|s.removed|, |s.pushed|, s.cap);
  }

  // ------------------------------------------------------------------
  // On 32 bits
  // ------------------------------------------------------------------

  /** Slots allocated for `cap`, whose successor wraps. */
  function Slots(cap: nat): nat { (cap + 1) % TWO32 }

  function Nelem32(rpos: nat, wpos: nat, cap: nat): nat {
    if rpos <= wpos then wpos - rpos else (wpos + (cap - rpos + 1) % TWO32) % TWO32
  }

  /** The next position; None is a division by zero. */
  function NextPos32(pos: nat, cap: nat): Option<nat> {
    if Slots(cap) == 0 then None else Some((pos + 1) % TWO32 % Slots(cap))
  }

  /** The step stays in the slots allocated, and its 32-bit arithmetic has the values that `Next` uses. */
  ghost predicate HasValue<E>(s: State<E>, t: Step<E>)
    requires Enabled(s, t)
  {
    match t
    case PushCheck =>
      && Nelem32(s.prod.rpos, s.wpos, s.cap) == Nelem(s.prod.rpos, s.wpos, s.cap)
      && (Nelem(s.prod.rpos, s.wpos, s.cap) != s.cap ==> s.wpos < Slots(s.cap))
    case PushCopied => s.wpos < Slots(s.cap)
    case PushStore => NextPos32(s.wpos, s.cap) == Some(Next(s, t).wpos)
    case PopCheck =>
      && Nelem32(s.rpos, s.cons.wpos, s.cap) == Nelem(s.rpos, s.cons.wpos, s.cap)
      && (Nelem(s.rpos, s.cons.wpos, s.cap) != 0 ==> s.rpos < Slots(s.cap))
    case PopCopied => s.rpos < Slots(s.cap)
    case PopStore => NextPos32(s.rpos, s.cap) == Some(Next(s, t).rpos)
    case _ => true
  }

  ghost predicate EveryStepHasValue<E(!new)>(cap: nat) {
    forall steps: seq<Step<E>>, t: Step<E> ::
      Run(cap, steps).Some? && Enabled(Run(cap, steps).value, t) ==> HasValue(Run(cap, steps).value, t)
  }

  lemma Arithmetic32(rpos: nat, wpos: nat, cap: nat)
    requires rpos <= cap && wpos <= cap && cap + 1 < TWO32
    ensures Slots(cap) == cap + 1 && Nelem32(rpos, wpos, cap) == Nelem(rpos, wpos, cap)
    ensures NextPos32(rpos, cap) == Some((rpos + 1) % (cap + 1))
  {
    Small32(cap + 1);
    Small32(rpos + 1);
    if rpos > wpos {
      Small32(cap - rpos + 1);
      Small32(wpos + (cap - rpos + 1));
    }
  }

  lemma Small32(x: nat)
    requires x < TWO32
    ensures x % TWO32 == x
  {}

  lemma StepHasValue<E>(s: State<E>, t: Step<E>)
    requires Inv(s) && Enabled(s, t) && s.cap + 1 < TWO32
    ensures HasValue(s, t)
  {
    hide At, Nelem, Nelem32, NextPos32;
    Arithmetic32(s.rpos, s.wpos, s.cap);
    Arithmetic32(s.wpos, s.wpos, s.cap);
    if s.prod.PLoaded? { Arithmetic32(s.prod.rpos, s.wpos, s.cap); }
    if s.cons.CLoaded? { Arithmetic32(s.rpos, s.cons.wpos, s.cap); }
  }

  /** With the largest capacity there is no slot to push into. */
  lemma LargestCapFails<E>(e: E)
    ensures var cap := TWO32 - 1;
            var r := Run<E>(cap, [PushLoad(e)]);
            r.Some? && r.value.prod.PLoaded? && !HasValue(r.value, PushCheck) && NextPos32(0, cap) == None
  {
    var cap := TWO32 - 1;
    var steps: seq<Step<E>> := [PushLoad(e)];
    assert steps[..0] == [];
    assert Run(cap, steps[..0]) == Some(Init<E>(cap));
  }

  /** Every step of every run has a value if and only if cap + 1 fits 32 bits. */
  lemma EveryStepHasValueIff<E(!new)>(cap: nat, e: E)
    requires cap < TWO32
    ensures EveryStepHasValue<E>(cap) <==> cap + 1 < TWO32
  {
    hide Inv, HasValue;
    if cap + 1 < TWO32 {
      forall steps: seq<Step<E>>, t: Step<E> | Run(cap, steps).Some? && Enabled(Run(cap, steps).value, t)
        ensures HasValue(Run(cap, steps).value, t)
      {
        RunInv(cap, steps);
        StepHasValue(Run(cap, steps).value, t);
      }
    } else {
      LargestCapFails(e);
      var s := Run<E>(cap, [PushLoad(e)]).value;
      assert Enabled(s, PushCheck);
    }
  }
}
