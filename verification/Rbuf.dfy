/** The byte ring buffer (src/cc_rbuf.c), whose capacity and positions are 32 bits wide. */
module Rbuf {
  import opened Bytes

  // ------------------------------------------------------------------
  // Positions
  // ------------------------------------------------------------------

  function U32(x: int): (r: nat)
    ensures r < TWO32 && (0 <= x < TWO32 ==> r == x)
  {
    x % TWO32
  }

  /** Positions a ring can reach; cap + 1 is "at the end, not wrapped yet", and wraps itself for the largest cap. */
  predicate Legal(rpos: nat, wpos: nat, cap: nat) {
    && cap < TWO32 && rpos < TWO32 && wpos < TWO32
    && rpos <= cap + 1 && wpos <= cap + 1 && !(rpos == 0 && wpos == cap + 1)
  }

  function RcapOf(rpos: nat, wpos: nat, cap: nat): int {
    if wpos < rpos then cap + wpos - rpos + 1 else wpos - rpos
  }

  function WcapOf(rpos: nat, wpos: nat, cap: nat): int {
    if wpos < rpos then rpos - wpos - 1 else cap - wpos + rpos
  }

  lemma CapacitiesAddUp(rpos: nat, wpos: nat, cap: nat)
    requires Legal(rpos, wpos, cap)
    ensures RcapOf(rpos, wpos, cap) + WcapOf(rpos, wpos, cap) == cap
    ensures 0 <= RcapOf(rpos, wpos, cap) <= cap
  {}

  // ------------------------------------------------------------------
  // What a call copies
  // ------------------------------------------------------------------

  /** The lengths of the two copies of a call and the position it stores; _min truncates to 32 bits. */
  datatype Plan = Plan(first: nat, second: nat, pos: nat)

  function WritePlan(rpos: nat, wpos: nat, cap: nat, n: nat): Plan
    requires Legal(rpos, wpos, cap)
  {
    if wpos < rpos then
      var k := Min(rpos - wpos - 1, U32(n));
      Plan(k, 0, wpos + k)
    else
      var k := Min(U32(cap - wpos + 1), U32(n));
      if k < n then
        var k2 := Min(U32(rpos - 1), U32(n - k));
        Plan(k, k2, k2)
      else Plan(k, 0, U32(wpos + k))
  }

  function ReadPlan(rpos: nat, wpos: nat, cap: nat, n: nat): Plan
    requires Legal(rpos, wpos, cap)
  {
    if wpos < rpos then
      var k := Min(cap - rpos + 1, U32(n));
      if k < n then
        var k2 := Min(wpos, U32(n - k));
        Plan(k, k2, k2)
      else Plan(k, 0, U32(rpos + k))
    else
      var k := Min(wpos - rpos, U32(n));
      Plan(k, 0, rpos + k)
  }

  lemma WritePlanShape(rpos: nat, wpos: nat, cap: nat, n: nat)
    requires Legal(rpos, wpos, cap)
    ensures var p := WritePlan(rpos, wpos, cap, n);
            && p.first + p.second <= n && wpos + p.first <= cap + 1 && p.pos < TWO32
            && (rpos > 0 ==> p.second <= cap + 1 && Legal(rpos, p.pos, cap))
  {}

  lemma ReadPlanShape(rpos: nat, wpos: nat, cap: nat, n: nat)
    requires Legal(rpos, wpos, cap)
    ensures var p := ReadPlan(rpos, wpos, cap, n);
            && p.first + p.second <= n && rpos + p.first <= cap + 1 && p.second <= wpos
            && Legal(p.pos, wpos, cap)
  {}

  /** When a write is right: the truncated length must still cover the room, and a ring at 0 takes no more than fits. */
  predicate WriteFits(rpos: nat, wpos: nat, cap: nat, n: nat) {
    if n < TWO32 then rpos > 0 || n <= WcapOf(rpos, wpos, cap)
    else if rpos > 0 then WcapOf(rpos, wpos, cap) <= U32(n)
    else wpos == 0 && U32(n) == cap && (cap == 0 || cap + 1 == TWO32)
  }

  predicate ReadFits(rpos: nat, wpos: nat, cap: nat, n: nat) {
    n < TWO32 || RcapOf(rpos, wpos, cap) <= U32(n)
  }

  // ------------------------------------------------------------------
  // The unread bytes
  // ------------------------------------------------------------------

  function Window(d: seq<Byte>, rpos: nat, wpos: nat, cap: nat): (s: seq<Byte>)
    requires |d| == cap + 1 && Legal(rpos, wpos, cap)
    ensures |s| == RcapOf(rpos, wpos, cap)
  {
    if wpos < rpos then d[rpos..] + d[..wpos] else d[rpos..wpos]
  }

  /** Memory after the copies of a write; None when one of them leaves the ring. */
  function Written(d: seq<Byte>, rpos: nat, wpos: nat, cap: nat, src: seq<Byte>): (r: Option<seq<Byte>>)
    requires |d| == cap + 1 && Legal(rpos, wpos, cap)
    ensures r.Some? ==> |r.value| == cap + 1
  {
    var p := WritePlan(rpos, wpos, cap, |src|);
    WritePlanShape(rpos, wpos, cap, |src|);
    if p.second > cap + 1 then None
    else Some(Overlay(Overlay(d, wpos, src[..p.first]), 0, src[p.first..p.first + p.second]))
  }

  /** As much of `src` as there is room for is behind what was unread. */
  ghost predicate Appends(d: seq<Byte>, rpos: nat, wpos: nat, cap: nat, src: seq<Byte>)
    requires |d| == cap + 1 && Legal(rpos, wpos, cap)
  {
    var p := WritePlan(rpos, wpos, cap, |src|);
    var d' := Written(d, rpos, wpos, cap, src);
    && d'.Some? && Legal(rpos, p.pos, cap)
    && p.first + p.second == Min(|src|, WcapOf(rpos, wpos, cap))
    && Window(d'.value, rpos, p.pos, cap) == Window(d, rpos, wpos, cap) + src[..p.first + p.second]
  }

  /** The bytes a read delivers. */
  function Delivered(d: seq<Byte>, rpos: nat, wpos: nat, cap: nat, n: nat): seq<Byte>
    requires |d| == cap + 1 && Legal(rpos, wpos, cap)
  {
    var p := ReadPlan(rpos, wpos, cap, n);
    ReadPlanShape(rpos, wpos, cap, n);
    d[rpos..rpos + p.first] + d[..p.second]
  }

  /** As much as asked for and unread is delivered, and the rest stays unread. */
  ghost predicate TakesFront(d: seq<Byte>, rpos: nat, wpos: nat, cap: nat, n: nat)
    requires |d| == cap + 1 && Legal(rpos, wpos, cap)
  {
    ReadPlanShape(rpos, wpos, cap, n);
    var p := ReadPlan(rpos, wpos, cap, n);
    var out := Delivered(d, rpos, wpos, cap, n);
    && |out| == Min(n, RcapOf(rpos, wpos, cap))
    && Window(d, rpos, wpos, cap) == out + Window(d, p.pos, wpos, cap)
  }

  lemma AppendStraight(d: seq<Byte>, rpos: nat, wpos: nat, cap: nat, x: seq<Byte>)
    requires |d| == cap + 1 && Legal(rpos, wpos, cap)
    requires wpos + |x| <= if wpos < rpos then rpos - 1 else cap + 1
    requires |x| <= WcapOf(rpos, wpos, cap)
    ensures Legal(rpos, U32(wpos + |x|), cap)
    ensures Window(Overlay(d, wpos, x), rpos, U32(wpos + |x|), cap) == Window(d, rpos, wpos, cap) + x
  {
    hide U32;
    AtZeroAgain();
    var d' := Overlay(d, wpos, x);
    if wpos < rpos {
      assert d'[rpos..] == d[rpos..] && d'[..wpos + |x|] == d[..wpos] + x;
    } else {
      assert d'[rpos..wpos + |x|] == d[rpos..wpos] + x;
      if wpos + |x| == TWO32 { assert d'[rpos..] + d'[..0] == d'[rpos..wpos + |x|]; }
    }
  }

  lemma AppendWrapped(d: seq<Byte>, rpos: nat, wpos: nat, cap: nat, x: seq<Byte>, y: seq<Byte>)
    requires |d| == cap + 1 && Legal(rpos, wpos, cap) && 0 < rpos <= wpos
    requires wpos + |x| == cap + 1 && |y| <= rpos - 1
    ensures Window(Overlay(Overlay(d, wpos, x), 0, y), rpos, |y|, cap) == Window(d, rpos, wpos, cap) + x + y
  {
    var d1 := Overlay(d, wpos, x);
    var d' := Overlay(d1, 0, y);
    assert d1[rpos..] == d[rpos..wpos] + x;
    assert d'[rpos..] == d1[rpos..] && d'[..|y|] == y;
  }

  /** Only for the largest cap: the free run at 0 has 2^32 bytes, truncates to none, and all goes to the second copy. */
  lemma AppendFromZero(d: seq<Byte>, cap: nat, y: seq<Byte>)
    requires |d| == cap + 1 && Legal(0, 0, cap) && |y| <= cap
    ensures Window(Overlay(Overlay(d, 0, []), 0, y), 0, |y|, cap) == Window(d, 0, 0, cap) + [] + y
  {
    assert Overlay(d, 0, []) == d;
  }

  lemma AtZeroAgain()
    ensures U32(TWO32) == 0 && U32(-1) == TWO32 - 1
  {}

  lemma TakeStraight(d: seq<Byte>, rpos: nat, wpos: nat, cap: nat, n: nat)
    requires |d| == cap + 1 && Legal(rpos, wpos, cap)
    requires n <= if wpos < rpos then cap + 1 - rpos else wpos - rpos
    ensures Legal(U32(rpos + n), wpos, cap)
    ensures Window(d, rpos, wpos, cap) == d[rpos..rpos + n] + Window(d, U32(rpos + n), wpos, cap)
  {
    hide U32, Window;
    if rpos + n < TWO32 { TakeUnwrapped(d, rpos, wpos, cap, n); } else { TakeToTheEnd(d, rpos, wpos, cap); }
  }

  lemma TakeUnwrapped(d: seq<Byte>, rpos: nat, wpos: nat, cap: nat, n: nat)
    requires |d| == cap + 1 && Legal(rpos, wpos, cap) && rpos + n < TWO32
    requires n <= if wpos < rpos then cap + 1 - rpos else wpos - rpos
    ensures Legal(rpos + n, wpos, cap)
    ensures Window(d, rpos, wpos, cap) == d[rpos..rpos + n] + Window(d, rpos + n, wpos, cap)
  {
    if wpos < rpos {
      assert d[rpos..] == d[rpos..rpos + n] + d[rpos + n..];
    } else {
      assert d[rpos..wpos] == d[rpos..rpos + n] + d[rpos + n..wpos];
    }
  }

  /** Only for the largest cap, whose end is where a position wraps to 0. */
  lemma TakeToTheEnd(d: seq<Byte>, rpos: nat, wpos: nat, cap: nat)
    requires |d| == cap + 1 == TWO32 && Legal(rpos, wpos, cap) && wpos < rpos
    ensures U32(TWO32) == 0 && Legal(0, wpos, cap)
    ensures Window(d, rpos, wpos, cap) == d[rpos..TWO32] + Window(d, 0, wpos, cap)
  {
    hide U32;
    AtZeroAgain();
    assert d[rpos..] == d[rpos..TWO32] && d[0..wpos] == d[..wpos];
  }

  lemma TakeWrapped(d: seq<Byte>, rpos: nat, wpos: nat, cap: nat, n: nat)
    requires |d| == cap + 1 && Legal(rpos, wpos, cap) && wpos < rpos && n <= wpos
    ensures Legal(n, wpos, cap)
    ensures Window(d, rpos, wpos, cap) == d[rpos..] + d[..n] + Window(d, n, wpos, cap)
  {
    assert d[..wpos] == d[..n] + d[n..wpos];
  }

  // ------------------------------------------------------------------
  // When a call is right
  // ------------------------------------------------------------------

  lemma OverlayNone(d: seq<Byte>, at: nat)
    requires at <= |d|
    ensures Overlay(d, at, []) == d
  {}

  /** One run, a run to the end and one from the start, or (for the largest cap) all in the second copy. */
  predicate RightForm(rpos: nat, wpos: nat, cap: nat, p: Plan) {
    || (&& p.second == 0 && p.pos == U32(wpos + p.first)
        && wpos + p.first <= (if wpos < rpos then rpos - 1 else cap + 1))
    || (0 < rpos <= wpos && wpos + p.first == cap + 1 && p.pos == p.second <= rpos - 1)
    || (rpos == wpos == p.first == 0 && p.pos == p.second <= cap)
  }

  lemma U32Minus(n: nat, k: nat)
    requires k <= U32(n)
    ensures k <= n && U32(n - k) == U32(n) - k
  {}

  lemma FittingWritePlan(rpos: nat, wpos: nat, cap: nat, n: nat)
    requires Legal(rpos, wpos, cap) && WriteFits(rpos, wpos, cap, n)
    ensures var p := WritePlan(rpos, wpos, cap, n);
            && p.first + p.second == Min(n, WcapOf(rpos, wpos, cap))
            && RightForm(rpos, wpos, cap, p)
  {
    hide U32;
    AtZeroAgain();
    U32Minus(n, WritePlan(rpos, wpos, cap, n).first);
  }

  /** The unread bytes after a write, by the three forms of its plan. */
  lemma PlannedWindow(d: seq<Byte>, rpos: nat, wpos: nat, cap: nat, x: seq<Byte>, y: seq<Byte>, pos: nat)
    requires |d| == cap + 1 && Legal(rpos, wpos, cap) && |x| + |y| <= WcapOf(rpos, wpos, cap)
    requires RightForm(rpos, wpos, cap, Plan(|x|, |y|, pos))
    ensures wpos + |x| <= cap + 1 && |y| <= cap + 1 && Legal(rpos, pos, cap)
    ensures Window(Overlay(Overlay(d, wpos, x), 0, y), rpos, pos, cap) == Window(d, rpos, wpos, cap) + x + y
  {
    hide Window, Overlay, U32;
    if y == [] && pos == U32(wpos + |x|) && wpos + |x| <= if wpos < rpos then rpos - 1 else cap + 1 {
      AppendStraight(d, rpos, wpos, cap, x);
      OverlayNone(Overlay(d, wpos, x), 0);
    } else if rpos > 0 {
      AppendWrapped(d, rpos, wpos, cap, x, y);
    } else {
      assert x == [];
      AppendFromZero(d, cap, y);
    }
  }

  lemma FittingWriteAppends(d: seq<Byte>, rpos: nat, wpos: nat, cap: nat, src: seq<Byte>)
    requires |d| == cap + 1 && Legal(rpos, wpos, cap) && WriteFits(rpos, wpos, cap, |src|)
    ensures Appends(d, rpos, wpos, cap, src)
  {
    hide Window, Overlay, WritePlan, WriteFits, U32, RightForm;
    var p := WritePlan(rpos, wpos, cap, |src|);
    FittingWritePlan(rpos, wpos, cap, |src|);
    WritePlanShape(rpos, wpos, cap, |src|);
    var x, y := src[..p.first], src[p.first..p.first + p.second];
    PlannedWindow(d, rpos, wpos, cap, x, y, p.pos);
    assert x + y == src[..p.first + p.second];
    assert Window(d, rpos, wpos, cap) + x + y == Window(d, rpos, wpos, cap) + (x + y);
  }

  lemma GuardedWriteFits(rpos: nat, wpos: nat, cap: nat, n: nat)
    requires Legal(rpos, wpos, cap) && n <= WcapOf(rpos, wpos, cap)
    ensures WriteFits(rpos, wpos, cap, n) && WritePlan(rpos, wpos, cap, n).second <= cap + 1
  {}

  /** Otherwise the number of bytes, or where they stop, is wrong already. */
  lemma OtherWriteMiscounts(rpos: nat, wpos: nat, cap: nat, n: nat)
    requires Legal(rpos, wpos, cap) && !WriteFits(rpos, wpos, cap, n)
    ensures var p := WritePlan(rpos, wpos, cap, n);
            || p.first + p.second != Min(n, WcapOf(rpos, wpos, cap))
            || RcapOf(rpos, p.pos, cap) != RcapOf(rpos, wpos, cap) + p.first + p.second
  {}

  /** A write appends what there is room for if and only if it fits in the sense of `WriteFits`. */
  lemma WriteRightIff(d: seq<Byte>, rpos: nat, wpos: nat, cap: nat, src: seq<Byte>)
    requires |d| == cap + 1 && Legal(rpos, wpos, cap)
    ensures Appends(d, rpos, wpos, cap, src) <==> WriteFits(rpos, wpos, cap, |src|)
  {
    if WriteFits(rpos, wpos, cap, |src|) {
      FittingWriteAppends(d, rpos, wpos, cap, src);
    } else {
      OtherWriteMiscounts(rpos, wpos, cap, |src|);
    }
  }

  lemma FittingReadPlan(rpos: nat, wpos: nat, cap: nat, n: nat)
    requires Legal(rpos, wpos, cap)
    ensures var p := ReadPlan(rpos, wpos, cap, n);
            && (p.first + p.second == Min(n, RcapOf(rpos, wpos, cap)) <==> ReadFits(rpos, wpos, cap, n))
            && (ReadFits(rpos, wpos, cap, n) ==>
                 || (&& p.second == 0 && p.pos == U32(rpos + p.first)
                     && p.first <= (if wpos < rpos then cap + 1 - rpos else wpos - rpos))
                 || (wpos < rpos && rpos + p.first == cap + 1 && p.pos == p.second <= wpos))
  {
    hide U32;
    AtZeroAgain();
    U32Minus(n, ReadPlan(rpos, wpos, cap, n).first);
  }

  /** A read takes what is there if and only if the length, cut to 32 bits, is not cut below it. */
  lemma ReadRightIff(d: seq<Byte>, rpos: nat, wpos: nat, cap: nat, n: nat)
    requires |d| == cap + 1 && Legal(rpos, wpos, cap)
    ensures TakesFront(d, rpos, wpos, cap, n) <==> ReadFits(rpos, wpos, cap, n)
  {
    hide Window, ReadPlan, ReadFits, U32;
    var p := ReadPlan(rpos, wpos, cap, n);
    ReadPlanShape(rpos, wpos, cap, n);
    FittingReadPlan(rpos, wpos, cap, n);
    if ReadFits(rpos, wpos, cap, n) {
      if p.second == 0 && p.pos == U32(rpos + p.first) && p.first <= if wpos < rpos then cap + 1 - rpos else wpos - rpos {
        TakeStraight(d, rpos, wpos, cap, p.first);
        assert d[..p.second] == [];
      } else {
        assert d[rpos..rpos + p.first] == d[rpos..];
        TakeWrapped(d, rpos, wpos, cap, p.second);
      }
    }
  }

  /** An empty ring of 10 bytes takes none of 2^32 and then shows 10 unread ones. */
  lemma CutWriteShowsGarbage()
    ensures WritePlan(1, 1, 10, TWO32) == Plan(0, 0, 0) && RcapOf(1, 1, 10) == 0 && RcapOf(1, 0, 10) == 10
  {}

  // ------------------------------------------------------------------
  // The buffer
  // ------------------------------------------------------------------

  class Ring {
    const cap: nat
    const data: array<Byte>
    var rpos: nat
    var wpos: nat

    ghost predicate Valid()
      reads this
    {
      data.Length == cap + 1 && Legal(rpos, wpos, cap)
    }

    ghost function Contents(): (s: seq<Byte>)
      requires Valid()
      reads this, data
      ensures |s| == RcapOf(rpos, wpos, cap)
    {
      Window(data[..], rpos, wpos, cap)
    }

    constructor (cap: nat)
      requires cap < TWO32
      ensures Valid() && Contents() == [] && this.cap == cap && fresh(data)
    {
      this.cap := cap;
      data := new Byte[cap + 1];
      rpos, wpos := 0, 0;
    }

    method Rcap() returns (n: nat)
      requires Valid()
      ensures n == |Contents()|
    {
      n := if wpos < rpos then cap + wpos - rpos + 1 else wpos - rpos;
    }

    method Wcap() returns (n: nat)
      requires Valid()
      ensures n == cap - |Contents()|
    {
      n := if wpos < rpos then rpos - wpos - 1 else cap - wpos + rpos;
    }

    /** Takes `n` bytes from the read position on, short of wrapping. */
    method TakeRun(n: nat) returns (dst: seq<Byte>)
      requires Valid() && n <= if wpos < rpos then cap + 1 - rpos else wpos - rpos
      modifies this`rpos
      ensures Valid() && rpos == U32(old(rpos) + n)
      ensures |dst| == n && old(Contents()) == dst + Contents()
    {
      hide Window;
      ghost var d := data[..];
      TakeStraight(d, rpos, wpos, cap, n);
      dst := data[rpos..rpos + n];
      assert dst == d[rpos..rpos + n];
      rpos := U32(rpos + n);
      assert data[..] == d;
    }

    /** Takes everything up to the end of the ring and `n` bytes from its start. */
    method TakeAround(n: nat) returns (dst: seq<Byte>)
      requires Valid() && n <= wpos < rpos
      modifies this`rpos
      ensures Valid() && rpos == n
      ensures |dst| == cap + 1 - old(rpos) + n && old(Contents()) == dst + Contents()
    {
      hide Window;
      ghost var d := data[..];
      TakeWrapped(d, rpos, wpos, cap, n);
      dst := data[rpos..] + data[..n];
      assert dst == d[rpos..] + d[..n];
      rpos := n;
      assert data[..] == d;
    }

    method Read(n: nat) returns (dst: seq<Byte>)
      requires Valid()
      modifies this`rpos
      ensures Valid() && dst == old(Delivered(data[..], rpos, wpos, cap, n))
      ensures rpos == ReadPlan(old(rpos), wpos, cap, n).pos
      ensures old(ReadFits(rpos, wpos, cap, n)) ==>
                |dst| == Min(n, |old(Contents())|) && old(Contents()) == dst + Contents()
    {
      hide Window, U32, ReadFits, ReadPlan, Delivered;
      ghost var d := data[..];
      ReadRightIff(d, rpos, wpos, cap, n);
      ReadPlanShape(rpos, wpos, cap, n);
      dst, rpos := CopyOut(n);
      assert data[..] == d;
    }

    method CopyOut(n: nat) returns (dst: seq<Byte>, pos: nat)
      requires Valid()
      ensures dst == Delivered(data[..], rpos, wpos, cap, n) && pos == ReadPlan(rpos, wpos, cap, n).pos
    {
      hide U32;
      ReadPlanShape(rpos, wpos, cap, n);
      var ret, rest := 0, 0;
      if wpos < rpos {
        ret := Min(cap - rpos + 1, U32(n));
        if ret < n {
          rest := Min(wpos, U32(n - ret));
          pos := rest;
        } else {
          pos := U32(rpos + ret);
        }
      } else {
        ret := Min(wpos - rpos, U32(n));
        pos := rpos + ret;
      }
      assert ReadPlan(rpos, wpos, cap, n) == Plan(ret, rest, pos);
      dst := data[rpos..rpos + ret] + data[..rest];
    }

    /** Callers must keep the copies inside the ring; the rest of the contract holds for every length. */
    method Write(src: seq<Byte>) returns (ret: nat)
      requires Valid() && WritePlan(rpos, wpos, cap, |src|).second <= cap + 1
      modifies this`wpos, data
      ensures var p := WritePlan(old(rpos), old(wpos), cap, |src|); ret == p.first + p.second && wpos == p.pos
      ensures Some(data[..]) == Written(old(data[..]), old(rpos), old(wpos), cap, src)
      ensures old(WriteFits(rpos, wpos, cap, |src|)) ==>
                && Valid() && ret == Min(|src|, cap - |old(Contents())|)
                && Contents() == old(Contents()) + src[..ret]
    {
      hide Window, Overlay, U32, WriteFits, WritePlan;
      ghost var d, w := data[..], wpos;
      WriteRightIff(d, rpos, wpos, cap, src);
      WritePlanShape(rpos, wpos, cap, |src|);
      var first, rest, pos := Split(|src|);
      Put(wpos, src[..first]);
      Put(0, src[first..first + rest]);
      ghost var d' := data[..];
      wpos := pos;
      ret := first + rest;
      assert data[..] == d';
    }

    /** The source copies as it goes; the lengths do not depend on the bytes. */
    method Split(n: nat) returns (first: nat, rest: nat, pos: nat)
      requires Valid()
      ensures Plan(first, rest, pos) == WritePlan(rpos, wpos, cap, n)
    {
      hide U32;
      rest := 0;
      if wpos < rpos {
        first := Min(rpos - wpos - 1, U32(n));
        pos := wpos + first;
      } else {
        first := Min(U32(cap - wpos + 1), U32(n));
        if first < n {
          rest := Min(U32(rpos - 1), U32(n - first));
          pos := rest;
        } else {
          pos := U32(wpos + first);
        }
      }
    }

    method Put(at: nat, x: seq<Byte>)
      requires at + |x| <= data.Length
      modifies data
      ensures data[..] == Overlay(old(data[..]), at, x)
    {
      CopyInto(data, at, x);
    }
  }
}
