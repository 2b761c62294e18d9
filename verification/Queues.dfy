/**
 * Tail queues (include/cc_queue.h), on pointers.
 *
 * A head and an entry are both a pair of pointers: a `next` field (tqh_first, tqe_next) and a pointer
 * to a `next` field (tqh_last, tqe_prev). The address of a `next` field is modelled by the cell that
 * holds it. A queue is described by the sequence of its cells, the head first; `Tailq` and `Stailq`
 * fix every field of all of them, so a queue that satisfies them is in exactly one state.
 */
module Queues {
  import opened Bytes
  import opened Filters

  class Cell {
    var next: Cell?
    var back: Cell?

    constructor ()
      ensures next == null && back == null
    {
      next, back := null, null;
    }
  }

  ghost predicate Distinct(c: seq<Cell>) { forall i, j :: 0 <= i < j < |c| ==> c[i] != c[j] }

  /** What follows the i-th cell. */
  function Next(c: seq<Cell>, i: nat): Cell?
    requires i < |c|
  {
    if i + 1 < |c| then c[i + 1] else null
  }

  /** What precedes the i-th cell; the head points to the last. */
  function Back(c: seq<Cell>, i: nat): Cell
    requires i < |c|
  {
    if i == 0 then c[|c| - 1] else c[i - 1]
  }

  /** Every next field is right, but perhaps that of the j-th cell. */
  ghost predicate NextsBut(c: seq<Cell>, j: int)
    reads c`next
  {
    forall i :: 0 <= i < |c| && i != j ==> c[i].next == Next(c, i)
  }

  ghost predicate BacksBut(c: seq<Cell>, j: int)
    reads c`back
  {
    forall i :: 0 <= i < |c| && i != j ==> c[i].back == Back(c, i)
  }

  ghost predicate Chained(c: seq<Cell>)
    reads c
  {
    |c| > 0 && Distinct(c) && NextsBut(c, -1)
  }

  ghost predicate Tailq(c: seq<Cell>)
    reads c
  {
    Chained(c) && BacksBut(c, -1)
  }

  /** Entries of a singly-linked queue have no back pointer. */
  ghost predicate Stailq(c: seq<Cell>)
    reads c
  {
    Chained(c) && c[0].back == c[|c| - 1]
  }

  function Insert(c: seq<Cell>, i: nat, e: Cell): seq<Cell>
    requires i <= |c|
  {
    c[..i] + [e] + c[i..]
  }

  function Without(c: seq<Cell>, i: nat): seq<Cell>
    requires i < |c|
  {
    c[..i] + c[i + 1..]
  }

  /** `c` is the queue of which `h` is the head. */
  ghost predicate Heads(h: Cell, c: seq<Cell>) { |c| > 0 && c[0] == h }

  lemma {:induction false} SameUpTo(c: seq<Cell>, d: seq<Cell>, k: nat)
    requires Chained(c) && Chained(d) && c[0] == d[0] && k < |c|
    ensures k < |d| && c[k] == d[k]
  {
    if k > 0 {
      SameUpTo(c, d, k - 1);
      assert c[k - 1].next == Next(c, k - 1) && d[k - 1].next == Next(d, k - 1);
    }
  }

  /** The pointers of a queue determine its contents. */
  lemma ContentsUnique(c: seq<Cell>, d: seq<Cell>)
    requires Chained(c) && Chained(d) && c[0] == d[0]
    ensures c == d
  {
    forall k | 0 <= k < |c| ensures k < |d| && c[k] == d[k] { SameUpTo(c, d, k); }
    SameUpTo(d, c, |d| - 1);
  }

  // ------------------------------------------------------------------
  // Which fields an edit has to change
  // ------------------------------------------------------------------

  /** The cell whose back pointer names the one before position i. */
  function After(c: seq<Cell>, i: nat): nat { if i < |c| then i else 0 }

  function Follower(c: seq<Cell>, i: nat): Cell
    requires |c| > 0
  {
    c[After(c, i)]
  }

  lemma DistinctAt(c: seq<Cell>, i: nat)
    requires Distinct(c) && i < |c|
    ensures forall k :: 0 <= k < |c| && k != i ==> c[k] != c[i]
  {}

  lemma InsertDistinct(c: seq<Cell>, i: nat, e: Cell)
    requires 0 < i <= |c| && Distinct(c) && e !in c
    ensures Distinct(Insert(c, i, e))
  {}

  lemma InsertChained(c: seq<Cell>, i: nat, e: Cell)
    requires 0 < i <= |c| && Distinct(c) && e !in c && NextsBut(c, i - 1)
    requires c[i - 1].next == e && e.next == Next(c, i - 1)
    ensures Chained(Insert(c, i, e))
  {
    hide Distinct;
    InsertDistinct(c, i, e);
    var d := Insert(c, i, e);
    forall k | 0 <= k < |d| ensures d[k].next == Next(d, k) {
      if k > i { assert d[k] == c[k - 1]; } else if k < i - 1 { assert d[k] == c[k]; }
    }
  }

  lemma InsertBacks(c: seq<Cell>, i: nat, e: Cell)
    requires 0 < i <= |c| && BacksBut(c, After(c, i))
    requires c[After(c, i)].back == e && e.back == c[i - 1]
    ensures BacksBut(Insert(c, i, e), -1)
  {
    var d := Insert(c, i, e);
    forall k | 0 <= k < |d| ensures d[k].back == Back(d, k) {
      if k > i { assert d[k] == c[k - 1]; } else if k < i { assert d[k] == c[k]; }
    }
  }

  lemma WithoutDistinct(c: seq<Cell>, i: nat)
    requires 0 < i < |c| && Distinct(c)
    ensures Distinct(Without(c, i)) && c[i] !in Without(c, i)
  {}

  lemma WithoutChained(c: seq<Cell>, i: nat)
    requires 0 < i < |c| && Distinct(c) && NextsBut(c, i - 1)
    requires c[i - 1].next == Next(c, i)
    ensures Chained(Without(c, i))
  {
    hide Distinct;
    WithoutDistinct(c, i);
    var d := Without(c, i);
    forall k | 0 <= k < |d| ensures d[k].next == Next(d, k) {
      if k >= i { assert d[k] == c[k + 1]; } else if k < i - 1 { assert d[k] == c[k]; }
    }
  }

  lemma WithoutBacks(c: seq<Cell>, i: nat)
    requires 0 < i < |c| && BacksBut(c, After(c, i + 1))
    requires c[After(c, i + 1)].back == c[i - 1]
    ensures BacksBut(Without(c, i), -1)
  {
    var d := Without(c, i);
    forall k | 0 <= k < |d| ensures d[k].back == Back(d, k) {
      if k >= i { assert d[k] == c[k + 1]; } else if k < i { assert d[k] == c[k]; }
    }
  }

  lemma JoinDistinct(c: seq<Cell>, d: seq<Cell>)
    requires |c| > 0 && |d| > 0 && Distinct(c + d)
    ensures Distinct(c) && Distinct(d) && Distinct(c + d[1..]) && Distinct([c[0]] + d[1..]) && Distinct([d[0]] + c[1..])
    ensures forall i, j :: 0 <= i < |c| && 0 <= j < |d| ==> c[i] != d[j]
  {
    var s := c + d;
    forall i, j | 0 <= i < |c| && 0 <= j < |d| ensures c[i] != d[j] { assert s[i] == c[i] && s[|c| + j] == d[j]; }
    forall i, j | 0 <= i < j < |c| ensures c[i] != c[j] { assert s[i] == c[i] && s[j] == c[j]; }
    forall i, j | 0 <= i < j < |d| ensures d[i] != d[j] { assert s[|c| + i] == d[i] && s[|c| + j] == d[j]; }
  }

  lemma JoinChained(c: seq<Cell>, d: seq<Cell>)
    requires |c| > 0 && |d| > 0 && Distinct(c + d[1..])
    requires NextsBut(c, |c| - 1) && NextsBut(d, 0) && c[|c| - 1].next == Next(d, 0)
    ensures Chained(c + d[1..])
  {
    hide Distinct;
    var s := c + d[1..];
    forall k | 0 <= k < |s| ensures s[k].next == Next(s, k) {
      if k >= |c| { assert s[k] == d[k - |c| + 1]; } else { assert s[k] == c[k]; }
    }
  }

  lemma JoinBacks(c: seq<Cell>, d: seq<Cell>)
    requires |c| > 0 && |d| > 1
    requires BacksBut(c, 0) && (forall k :: 2 <= k < |d| ==> d[k].back == Back(d, k))
    requires c[0].back == d[|d| - 1] && d[1].back == c[|c| - 1]
    ensures BacksBut(c + d[1..], -1)
  {
    var s := c + d[1..];
    forall k | 0 <= k < |s| ensures s[k].back == Back(s, k) {
      if k >= |c| { assert s[k] == d[k - |c| + 1]; } else { assert s[k] == c[k]; }
    }
  }

  // ------------------------------------------------------------------
  // TAILQ
  // ------------------------------------------------------------------

  method TailqInit(h: Cell)
    modifies h
    ensures Tailq([h])
  {
    h.next := null;
    h.back := h;
  }

  method TailqInsertHead(h: Cell, e: Cell, ghost c: seq<Cell>)
    requires Tailq(c) && Heads(h, c) && e !in c
    modifies e, h`next, Follower(c, 1)`back
    ensures Tailq(Insert(c, 1, e))
  {
    e.next := h.next;
    if e.next != null { h.next.back := e; } else { h.back := e; }
    h.next := e;
    e.back := h;
    InsertChained(c, 1, e);
    InsertBacks(c, 1, e);
  }

  method TailqInsertTail(h: Cell, e: Cell, ghost c: seq<Cell>)
    requires Tailq(c) && Heads(h, c) && e !in c
    modifies e, Back(c, 0)`next, h`back
    ensures Tailq(c + [e])
  {
    e.next := null;
    e.back := h.back;
    h.back.next := e;
    h.back := e;
    InsertChained(c, |c|, e);
    InsertBacks(c, |c|, e);
    assert Insert(c, |c|, e) == c + [e];
  }

  method TailqInsertAfter(h: Cell, l: Cell, e: Cell, ghost c: seq<Cell>, ghost i: nat)
    requires Tailq(c) && Heads(h, c) && e !in c && 0 < i < |c| && c[i] == l
    modifies e, l`next, Follower(c, i + 1)`back
    ensures Tailq(Insert(c, i + 1, e))
  {
    hide Distinct, Insert, BacksBut;
    LinkFollower(h, l, e, c, i);
    DistinctAt(c, i);
    l.next := e;
    e.back := l;
    InsertChained(c, i + 1, e);
    InsertBacks(c, i + 1, e);
  }

  /** The half of an insertion that concerns what follows. */
  method LinkFollower(h: Cell, l: Cell, e: Cell, ghost c: seq<Cell>, ghost i: nat)
    requires Tailq(c) && Heads(h, c) && e !in c && 0 < i < |c| && c[i] == l
    modifies e`next, Follower(c, i + 1)`back
    ensures e.next == Next(c, i) && c[After(c, i + 1)].back == e
    ensures NextsBut(c, -1) && BacksBut(c, After(c, i + 1))
  {
    hide Distinct;
    DistinctAt(c, After(c, i + 1));
    e.next := l.next;
    if e.next != null { e.next.back := e; } else { h.back := e; }
  }

  /** The head is not needed. */
  method TailqInsertBefore(l: Cell, e: Cell, ghost c: seq<Cell>, ghost i: nat)
    requires Tailq(c) && e !in c && 0 < i < |c| && c[i] == l
    modifies e, Back(c, i)`next, l`back
    ensures Tailq(Insert(c, i, e))
  {
    e.back := l.back;
    e.next := l;
    l.back.next := e;
    l.back := e;
    InsertChained(c, i, e);
    InsertBacks(c, i, e);
  }

  method TailqRemove(h: Cell, e: Cell, ghost c: seq<Cell>, ghost i: nat)
    requires Tailq(c) && Heads(h, c) && 0 < i < |c| && c[i] == e
    modifies Back(c, i)`next, Follower(c, i + 1)`back
    ensures Tailq(Without(c, i)) && e !in Without(c, i)
  {
    hide Distinct, Without;
    DistinctAt(c, i - 1);
    DistinctAt(c, After(c, i + 1));
    if e.next != null { e.next.back := e.back; } else { h.back := e.back; }
    e.back.next := e.next;
    WithoutChained(c, i);
    WithoutDistinct(c, i);
    WithoutBacks(c, i);
  }

  method TailqConcat(h1: Cell, h2: Cell, ghost c1: seq<Cell>, ghost c2: seq<Cell>)
    requires Tailq(c1) && Heads(h1, c1) && Tailq(c2) && Heads(h2, c2) && Distinct(c1 + c2)
    modifies Back(c1, 0)`next, h1`back, Follower(c2, 1)`back, h2
    ensures Tailq(c1 + c2[1..]) && Tailq([h2])
  {
    hide Distinct, NextsBut, BacksBut;
    FirstTwo(c2);
    if h2.next != null {
      Splice(h1, h2, c1, c2);
      JoinDistinct(c1, c2);
      DistinctAt(c2, 0);
      TailqInit(h2);
    } else {
      assert c1 + c2[1..] == c1 && c2 == [h2];
    }
  }

  /** Links the entries of a queue that is not empty behind another. */
  method Splice(h1: Cell, h2: Cell, ghost c1: seq<Cell>, ghost c2: seq<Cell>)
    requires Tailq(c1) && Heads(h1, c1) && Tailq(c2) && Heads(h2, c2) && Distinct(c1 + c2) && |c2| > 1
    modifies Back(c1, 0)`next, h1`back, Follower(c2, 1)`back
    ensures Tailq(c1 + c2[1..])
  {
    hide Distinct;
    JoinDistinct(c1, c2);
    DistinctAt(c1, 0);
    DistinctAt(c1, |c1| - 1);
    DistinctAt(c2, 1);
    h1.back.next := h2.next;
    h2.next.back := h1.back;
    h1.back := h2.back;
    JoinChained(c1, c2);
    JoinBacks(c1, c2);
  }

  method TailqSwap(h1: Cell, h2: Cell, ghost c1: seq<Cell>, ghost c2: seq<Cell>)
    requires Tailq(c1) && Heads(h1, c1) && Tailq(c2) && Heads(h2, c2) && Distinct(c1 + c2)
    modifies c1, c2
    ensures Tailq([h1] + c2[1..]) && Tailq([h2] + c1[1..])
  {
    var first, last := h1.next, h1.back;
    h1.next, h1.back := h2.next, h2.back;
    h2.next, h2.back := first, last;
    if h1.next != null { h1.next.back := h1; } else { h1.back := h1; }
    if h2.next != null { h2.next.back := h2; } else { h2.back := h2; }
    JoinDistinct(c1, c2);
    JoinChained([h1], c2);
    JoinChained([h2], c1);
    if |c2| > 1 { JoinBacks([h1], c2); }
    if |c1| > 1 { JoinBacks([h2], c1); }
  }

  /** Reads an entry as a head, which the shared layout allows. */
  method TailqLast(h: Cell, ghost c: seq<Cell>) returns (e: Cell?)
    requires Tailq(c) && Heads(h, c)
    ensures e == if |c| == 1 then null else c[|c| - 1]
  {
    e := h.back.back.next;
  }

  method TailqPrev(l: Cell, ghost c: seq<Cell>, ghost i: nat) returns (e: Cell?)
    requires Tailq(c) && 0 < i < |c| && c[i] == l
    ensures e == if i == 1 then null else c[i - 1]
  {
    e := l.back.back.next;
  }

  /** The traversal that saves the successor first visits every entry, though each visit removes its own. */
  method TailqDrainSafe(h: Cell, ghost c: seq<Cell>) returns (visited: seq<Cell>)
    requires Tailq(c) && Heads(h, c)
    modifies c
    ensures visited == c[1..] && Tailq([h])
  {
    hide Tailq;
    visited := [];
    FirstTwo(c);
    var v := h.next;
    ghost var rest := c;
    while v != null
      invariant (forall x <- rest :: x in c) && Tailq(rest) && Heads(h, rest)
      invariant c == [h] + visited + rest[1..] && v == Next(rest, 0)
      decreases |rest|
    {
      FirstTwo(rest);
      var saved := v.next;
      assert rest[0] in rest && rest[After(rest, 2)] in rest;
      TailqRemove(h, v, rest, 1);
      visited := visited + [v];
      rest := Without(rest, 1);
      v := saved;
    }
    assert rest == [h];
  }

  lemma FirstTwo(c: seq<Cell>)
    requires Tailq(c)
    ensures |c| > 0 && c[0].next == Next(c, 0) && (|c| > 1 ==> c[1].next == Next(c, 1))
  {}

  // ------------------------------------------------------------------
  // A table of queues, as the timing wheel keeps one
  // ------------------------------------------------------------------

  ghost function CellsOf(q: seq<Cell>): set<Cell> { set x | x in q }

  ghost function Cells(qs: seq<seq<Cell>>): (r: set<Cell>)
    ensures forall j, x :: 0 <= j < |qs| && x in qs[j] ==> x in r
    ensures forall x <- r :: exists j :: 0 <= j < |qs| && x in qs[j]
  {
    if qs == [] then {} else Cells(qs[..|qs| - 1]) + CellsOf(qs[|qs| - 1])
  }

  ghost predicate Nowhere(v: Cell, qs: seq<seq<Cell>>) { forall b :: 0 <= b < |qs| ==> v !in qs[b] }

  ghost predicate Apart(qs: seq<seq<Cell>>) {
    forall a, b, i, j :: 0 <= a < b < |qs| && 0 <= i < |qs[a]| && 0 <= j < |qs[b]| ==> qs[a][i] != qs[b][j]
  }

  ghost predicate Table(heads: seq<Cell>, qs: seq<seq<Cell>>)
    reads Cells(qs)
  {
    |heads| == |qs| && Apart(qs) && forall j :: 0 <= j < |qs| ==> Tailq(qs[j]) && Heads(heads[j], qs[j])
  }

  /** The first entry of row `c` goes to the end of row `d`, or nowhere. */
  ghost function Moved(qs: seq<seq<Cell>>, c: nat, d: Option<nat>): seq<seq<Cell>>
    requires c < |qs| && |qs[c]| > 1 && (d.Some? ==> d.value < |qs| && d.value != c)
  {
    var rest := qs[c := Without(qs[c], 1)];
    if d.Some? then rest[d.value := qs[d.value] + [qs[c][1]]] else rest
  }

  lemma TailqDistinct(c: seq<Cell>)
    requires Tailq(c)
    ensures Distinct(c)
  {}

  lemma ApartRow(qs: seq<seq<Cell>>, a: nat, b: nat, i: nat)
    requires Apart(qs) && a < |qs| && b < |qs| && a != b && i < |qs[a]|
    ensures qs[a][i] !in qs[b]
  {}

  lemma ApartWithout(qs: seq<seq<Cell>>, c: nat)
    requires Apart(qs) && c < |qs| && |qs[c]| > 1 && Distinct(qs[c])
    ensures Apart(qs[c := Without(qs[c], 1)])
    ensures Nowhere(qs[c][1], qs[c := Without(qs[c], 1)]) && Cells(qs[c := Without(qs[c], 1)]) <= Cells(qs)
  {
    hide Cells;
    var row, rest := qs[c], Without(qs[c], 1);
    WithoutDistinct(row, 1);
    forall i | 0 <= i < |rest| ensures rest[i] == row[if i == 0 then 0 else i + 1] {}
    forall b | 0 <= b < |qs| && b != c ensures row[1] !in qs[b] { ApartRow(qs, c, b, 1); }
  }

  lemma ApartAppend(qs: seq<seq<Cell>>, d: nat, v: Cell)
    requires Apart(qs) && d < |qs| && Nowhere(v, qs)
    ensures Apart(qs[d := qs[d] + [v]])
  {}

  /** A visit of the traversal: out of its queue, and into another if it has one to go to. */
  method MoveFirst(heads: seq<Cell>, c: nat, v: Cell, d: Option<nat>, ghost qs: seq<seq<Cell>>)
    requires Table(heads, qs) && c < |qs| && |qs[c]| > 1 && v == qs[c][1]
    requires d.Some? ==> d.value < |qs| && d.value != c
    modifies Cells(qs)
    ensures Table(heads, Moved(qs, c, d))
  {
    hide Cells, Tailq, Apart, Nowhere;
    assert v in qs[c];
    RemoveFirst(heads, c, v, qs);
    if d.Some? { AppendTo(heads, d.value, v, qs[c := Without(qs[c], 1)]); }
  }

  method RemoveFirst(heads: seq<Cell>, c: nat, v: Cell, ghost qs: seq<seq<Cell>>)
    requires Table(heads, qs) && c < |qs| && |qs[c]| > 1 && v == qs[c][1]
    modifies Cells(qs)
    ensures Table(heads, qs[c := Without(qs[c], 1)])
    ensures Nowhere(v, qs[c := Without(qs[c], 1)]) && Cells(qs[c := Without(qs[c], 1)]) <= Cells(qs)
  {
    hide Cells, Apart, Tailq, Nowhere;
    TailqDistinct(qs[c]);
    ApartWithout(qs, c);
    assert qs[c][0] in qs[c] && qs[c][After(qs[c], 2)] in qs[c];
    TailqRemove(heads[c], v, qs[c], 1);
    forall j | 0 <= j < |qs| && j != c ensures Tailq(qs[j]) {
      ApartRow(qs, c, j, 0);
      ApartRow(qs, c, j, After(qs[c], 2));
    }
  }

  method AppendTo(heads: seq<Cell>, d: nat, v: Cell, ghost qs: seq<seq<Cell>>)
    requires Table(heads, qs) && d < |qs| && Nowhere(v, qs)
    modifies Cells(qs), v
    ensures Table(heads, qs[d := qs[d] + [v]])
  {
    hide Cells, Apart, Tailq;
    ApartAppend(qs, d, v);
    assert qs[d][0] in qs[d] && qs[d][|qs[d]| - 1] in qs[d];
    TailqInsertTail(heads[d], v, qs[d]);
    forall j | 0 <= j < |qs| && j != d ensures Tailq(qs[j]) {
      ApartRow(qs, d, j, 0);
      ApartRow(qs, d, j, |qs[d]| - 1);
    }
  }

  /** The entries of each queue, without its head. */
  ghost function Entries(qs: seq<seq<Cell>>): seq<seq<Cell>>
    requires forall q <- qs :: |q| > 0
  {
    seq(|qs|, j requires 0 <= j < |qs| => qs[j][1..])
  }

  ghost predicate Goes(qs: seq<seq<Cell>>, c: nat, dest: Cell -> Option<nat>) {
    c < |qs| && forall x <- qs[c] :: dest(x).Some? ==> dest(x).value < |qs| && dest(x).value != c
  }

  /** The table after the first `k` entries of row `c` have moved. */
  ghost predicate MovedTo(qs: seq<seq<Cell>>, now: seq<seq<Cell>>, c: nat, dest: Cell -> Option<nat>, k: nat) {
    && c < |qs| == |now| && 0 < k + 1 <= |qs[c]| && now[c] == [qs[c][0]] + qs[c][1 + k..]
    && forall j :: 0 <= j < |qs| && j != c ==> now[j] == qs[j] + Filter(GoesTo(dest, j), qs[c][1..1 + k])
  }

  lemma MovedToNext(qs: seq<seq<Cell>>, now: seq<seq<Cell>>, c: nat, dest: Cell -> Option<nat>, k: nat)
    requires Goes(qs, c, dest) && MovedTo(qs, now, c, dest, k) && 1 + k < |qs[c]|
    ensures |now[c]| > 1 && now[c][1] == qs[c][1 + k]
    ensures var d := dest(qs[c][1 + k]);
            (d.Some? ==> d.value < |now| && d.value != c) && MovedTo(qs, Moved(now, c, d), c, dest, k + 1)
  {
    var v := qs[c][1 + k];
    var d := dest(v);
    assert v in qs[c];
    var next := Moved(now, c, d);
    assert Without(now[c], 1) == [qs[c][0]] + qs[c][1 + k + 1..];
    forall j | 0 <= j < |qs| && j != c ensures next[j] == qs[j] + Filter(GoesTo(dest, j), qs[c][1..1 + k + 1]) {
      assert qs[c][1..1 + k + 1] == qs[c][1..1 + k] + [v];
      FilterAppend(GoesTo(dest, j), qs[c][1..1 + k], v);
    }
  }

  lemma MovedToStart(heads: seq<Cell>, qs: seq<seq<Cell>>, c: nat, dest: Cell -> Option<nat>)
    requires Table(heads, qs) && Goes(qs, c, dest)
    ensures MovedTo(qs, qs, c, dest, 0) && c < |heads| && heads[c].next == Next(qs[c], 0)
  {
    hide Apart;
    FirstTwo(qs[c]);
    assert qs[c] == [qs[c][0]] + qs[c][1..] && qs[c][1..1] == [];
    forall j | 0 <= j < |qs| && j != c ensures qs[j] == qs[j] + Filter(GoesTo(dest, j), []) {}
  }

  lemma MovedCells(qs: seq<seq<Cell>>, c: nat, d: Option<nat>)
    requires c < |qs| && |qs[c]| > 1 && (d.Some? ==> d.value < |qs| && d.value != c)
    ensures Cells(Moved(qs, c, d)) <= Cells(qs) && Moved(qs, c, d)[c] == Without(qs[c], 1)
  {
    hide Cells;
    var now := Moved(qs, c, d);
    assert qs[c][1] in qs[c];
    forall x | x in Cells(now) ensures x in Cells(qs) {
      var j :| 0 <= j < |now| && x in now[j];
      if x in qs[j] {} else { assert x in qs[c]; }
    }
  }

  lemma MovedToEnd(heads: seq<Cell>, qs: seq<seq<Cell>>, now: seq<seq<Cell>>, c: nat, dest: Cell -> Option<nat>, k: nat)
    requires MovedTo(qs, now, c, dest, k) && k + 1 == |qs[c]| && forall j :: 0 <= j < |qs| ==> |qs[j]| > 0
    ensures (forall q <- qs + now :: |q| > 0) && Rehomed(Entries(qs), Entries(now), c, dest)
  {
    assert qs[c][1 + k..] == [] && qs[c][1..1 + k] == qs[c][1..];
    forall j | 0 <= j < |qs| ensures |now[j]| > 0 {}
    forall q | q in qs + now ensures |q| > 0 {
      var j :| 0 <= j < |qs + now| && (qs + now)[j] == q;
    }
    forall j | 0 <= j < |qs| && j != c ensures now[j][1..] == qs[j][1..] + Filter(GoesTo(dest, j), qs[c][1..]) {}
  }

  /**
   * What a tick of the timing wheel does to its slots: a traversal that saves the successor first, while each
   * visit unlinks its entry and may link it into another queue. Every entry is visited once, in order.
   */
  method TailqRehome(heads: seq<Cell>, c: nat, dest: Cell -> Option<nat>, ghost qs: seq<seq<Cell>>)
    returns (visited: seq<Cell>, ghost after: seq<seq<Cell>>)
    requires Table(heads, qs) && Goes(qs, c, dest)
    modifies Cells(qs)
    ensures visited == qs[c][1..] && Table(heads, after)
    ensures (forall q <- qs + after :: |q| > 0) && Rehomed(Entries(qs), Entries(after), c, dest)
  {
    hide Cells, Tailq, Apart, MovedTo, Moved, Goes, Rehomed, Entries;
    visited := [];
    after := qs;
    ghost var k := 0;
    MovedToStart(heads, qs, c, dest);
    var v := heads[c].next;
    while v != null
      invariant Table(heads, after) && Cells(after) <= Cells(qs)
      invariant MovedTo(qs, after, c, dest, k) && k + 1 <= |qs[c]| && visited == qs[c][1..1 + k]
      invariant c < |after| && |after[c]| > 0 && v == Next(after[c], 0) && |after[c]| == |qs[c]| - k
      decreases |qs[c]| - k
    {
      MovedToNext(qs, after, c, dest, k);
      FirstTwo(after[c]);
      var saved := v.next;
      MoveFirst(heads, c, v, dest(v), after);
      visited := visited + [v];
      ghost var row := after[c];
      MovedCells(after, c, dest(v));
      after := Moved(after, c, dest(v));
      assert after[c] == Without(row, 1);
      k := k + 1;
      v := saved;
    }
    MovedToEnd(heads, qs, after, c, dest, k);
  }

  // ------------------------------------------------------------------
  // STAILQ
  // ------------------------------------------------------------------

  method StailqInit(h: Cell)
    modifies h
    ensures Stailq([h])
  {
    h.next := null;
    h.back := h;
  }

  method StailqInsertHead(h: Cell, e: Cell, ghost c: seq<Cell>)
    requires Stailq(c) && Heads(h, c) && e !in c
    modifies e`next, h
    ensures Stailq(Insert(c, 1, e))
  {
    e.next := h.next;
    if e.next == null { h.back := e; }
    h.next := e;
    InsertChained(c, 1, e);
  }

  method StailqInsertTail(h: Cell, e: Cell, ghost c: seq<Cell>)
    requires Stailq(c) && Heads(h, c) && e !in c
    modifies e`next, Back(c, 0)`next, h`back
    ensures Stailq(c + [e])
  {
    e.next := null;
    h.back.next := e;
    h.back := e;
    InsertChained(c, |c|, e);
    assert Insert(c, |c|, e) == c + [e];
  }

  method StailqInsertAfter(h: Cell, l: Cell, e: Cell, ghost c: seq<Cell>, ghost i: nat)
    requires Stailq(c) && Heads(h, c) && e !in c && 0 < i < |c| && c[i] == l
    modifies e`next, l`next, h`back
    ensures Stailq(Insert(c, i + 1, e))
  {
    e.next := l.next;
    if e.next == null { h.back := e; }
    l.next := e;
    InsertChained(c, i + 1, e);
  }

  method StailqRemoveHead(h: Cell, ghost c: seq<Cell>)
    requires Stailq(c) && Heads(h, c) && |c| > 1
    modifies h`next, h`back
    ensures Stailq(Without(c, 1))
  {
    h.next := h.next.next;
    if h.next == null { h.back := h; }
    WithoutChained(c, 1);
  }

  method StailqRemoveAfter(h: Cell, l: Cell, ghost c: seq<Cell>, ghost i: nat)
    requires Stailq(c) && Heads(h, c) && 0 < i && i + 1 < |c| && c[i] == l
    modifies l`next, h`back
    ensures Stailq(Without(c, i + 1))
  {
    l.next := l.next.next;
    if l.next == null { h.back := l; }
    WithoutChained(c, i + 1);
  }

  /** Finds the predecessor by walking from the first entry. */
  method StailqRemove(h: Cell, e: Cell, ghost c: seq<Cell>, ghost i: nat)
    requires Stailq(c) && Heads(h, c) && 0 < i < |c| && c[i] == e
    modifies Back(c, i)`next, h`back
    ensures Stailq(Without(c, i))
  {
    if h.next == e {
      assert i == 1;
      StailqRemoveHead(h, c);
    } else {
      var cur := h.next;
      ghost var k := 1;
      while cur.next != e
        invariant 1 <= k < i && cur == c[k]
        decreases i - k
      {
        cur := cur.next;
        k := k + 1;
      }
      assert k + 1 == i;
      StailqRemoveAfter(h, cur, c, k);
    }
  }

  method StailqConcat(h1: Cell, h2: Cell, ghost c1: seq<Cell>, ghost c2: seq<Cell>)
    requires Stailq(c1) && Heads(h1, c1) && Stailq(c2) && Heads(h2, c2) && Distinct(c1 + c2)
    modifies c1, c2
    ensures Stailq(c1 + c2[1..]) && Stailq([h2])
  {
    JoinDistinct(c1, c2);
    if h2.next != null {
      h1.back.next := h2.next;
      h1.back := h2.back;
      JoinChained(c1, c2);
      StailqInit(h2);
    } else {
      assert c1 + c2[1..] == c1 && c2 == [h2];
    }
  }

  method StailqSwap(h1: Cell, h2: Cell, ghost c1: seq<Cell>, ghost c2: seq<Cell>)
    requires Stailq(c1) && Heads(h1, c1) && Stailq(c2) && Heads(h2, c2) && Distinct(c1 + c2)
    modifies c1, c2
    ensures Stailq([h1] + c2[1..]) && Stailq([h2] + c1[1..])
  {
    var first, last := h1.next, h1.back;
    h1.next, h1.back := h2.next, h2.back;
    h2.next, h2.back := first, last;
    if h1.next == null { h1.back := h1; }
    if h2.next == null { h2.back := h2; }
    JoinDistinct(c1, c2);
    JoinChained([h1], c2);
    JoinChained([h2], c1);
  }
}
