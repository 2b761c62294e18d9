/**
 * Linear buffers (include/buffer/cc_buf.h), their doubling (src/buffer/cc_dbuf.c)
 * and the receive loop over them (src/stream/cc_sockio.c).
 */
module Dbuf {
  import opened Bytes
  import opened Arith

  datatype Status = OK | ERROR | ENOMEM | ERETRY | ERDHUP

  const TWO31: nat := 0x8000_0000

  /** Header size, and the module's buf_init_size and max_size. */
  datatype Config = Config(hdr: nat, initSize: nat, maxSize: nat) {
    /** An allowed size can be doubled without wrapping (`DoublesExactlyIff`). */
    ghost predicate Valid() { hdr < initSize <= maxSize && initSize < TWO32 && maxSize < Largest(initSize) }
  }

  // ------------------------------------------------------------------
  // Sizes
  // ------------------------------------------------------------------

  function SizeAt(init: nat, k: nat): nat { init * Pow2(k) }

  lemma SizeNext(init: nat, k: nat)
    ensures SizeAt(init, k + 1) == 2 * SizeAt(init, k)
  {}

  lemma {:induction false} SizeMono(init: nat, j: nat, k: nat)
    requires j <= k
    ensures SizeAt(init, j) <= SizeAt(init, k)
    decreases k - j
  {
    if j < k {
      SizeMono(init, j, k - 1);
      SizeNext(init, k - 1);
    }
  }

  /** The least of init, 2*init, 4*init, ... that is at least `need`. */
  ghost predicate IsLeast(init: nat, need: nat, k: nat) {
    SizeAt(init, k) >= need && (k > 0 ==> SizeAt(init, k - 1) < need)
  }

  lemma LeastBelow(init: nat, need: nat, k: nat, j: nat)
    requires IsLeast(init, need, k) && SizeAt(init, j) >= need
    ensures SizeAt(init, k) <= SizeAt(init, j)
  {
    if j < k { SizeMono(init, j, k - 1); } else { SizeMono(init, k, j); }
  }

  lemma OneLeast(init: nat, need: nat, j: nat, k: nat)
    requires IsLeast(init, need, j)
    ensures IsLeast(init, need, k) ==> SizeAt(init, j) == SizeAt(init, k)
  {
    hide SizeAt;
    if IsLeast(init, need, k) {
      LeastBelow(init, need, j, k);
      LeastBelow(init, need, k, j);
    }
  }

  /** No allowed size is at least `need`. */
  ghost predicate TooLarge(cfg: Config, need: nat) {
    forall j: nat :: SizeAt(cfg.initSize, j) >= need ==> SizeAt(cfg.initSize, j) > cfg.maxSize
  }

  lemma NoneFits(cfg: Config, need: nat, k: nat)
    requires IsLeast(cfg.initSize, need, k) && SizeAt(cfg.initSize, k) > cfg.maxSize
    ensures TooLarge(cfg, need)
  {
    forall j: nat | SizeAt(cfg.initSize, j) >= need ensures SizeAt(cfg.initSize, j) > cfg.maxSize {
      LeastBelow(cfg.initSize, need, k, j);
    }
  }

  // ------------------------------------------------------------------
  // The doubling loop, on 32 bits
  // ------------------------------------------------------------------

  /** The size after `j` rounds of the loop of dbuf_fit and dbuf_shrink, wrapping like the source's uint32_t. */
  function Wrapped(init: nat, j: nat): nat { if j == 0 then init else Wrapped(init, j - 1) * 2 % TWO32 }

  /** The largest of the first `n` sizes. */
  function MaxWrapped(init: nat, n: nat): nat {
    if n == 0 then 0
    else
      var m, w := MaxWrapped(init, n - 1), Wrapped(init, n - 1);
      if m < w then w else m
  }

  /** The largest doubling of `init` that 32 bits can hold. */
  function Largest(init: nat): (r: nat)
    requires 0 < init < TWO32
    ensures TWO31 <= r < TWO32
    decreases TWO32 - init
  {
    if 2 * init < TWO32 then Largest(2 * init) else init
  }

  /** The loop stops after `k` rounds. */
  ghost predicate StopsAt(init: nat, need: nat, k: nat) {
    Wrapped(init, k) >= need && forall j :: 0 <= j < k ==> Wrapped(init, j) < need
  }

  lemma {:induction false} WrappedIs(init: nat, j: nat)
    requires init < TWO32
    ensures Wrapped(init, j) == SizeAt(init, j) % TWO32
  {
    hide SizeAt;
    if j > 0 {
      WrappedIs(init, j - 1);
      SizeNext(init, j - 1);
      ModDouble(SizeAt(init, j - 1));
    } else {
      SizeZero(init);
    }
  }

  lemma ModDouble(x: nat)
    ensures x % TWO32 * 2 % TWO32 == 2 * x % TWO32
  {}

  lemma SizeZero(init: nat)
    ensures SizeAt(init, 0) == init
  {}

  /** After 32 rounds every bit has been shifted out. */
  lemma {:induction false} WrappedZero(init: nat, j: nat)
    requires init < TWO32 && j >= 32
    ensures Wrapped(init, j) == 0
    decreases j
  {
    hide SizeAt;
    if j == 32 {
      WrappedIs(init, 32);
      Pow2Words();
      SizeWord(init);
    } else {
      WrappedZero(init, j - 1);
    }
  }

  lemma SizeWord(init: nat)
    ensures SizeAt(init, 32) % TWO32 == 0
  {
    hide Pow2;
    Pow2Words();
    assert SizeAt(init, 32) == init * TWO32;
  }

  lemma {:induction false} MaxWrappedBounds(init: nat, n: nat, j: nat)
    requires j < n
    ensures Wrapped(init, j) <= MaxWrapped(init, n)
    decreases n
  {
    if j < n - 1 { MaxWrappedBounds(init, n - 1, j); }
  }

  lemma {:induction false} MaxWrappedReached(init: nat, n: nat) returns (j: nat)
    requires n > 0
    ensures j < n && Wrapped(init, j) == MaxWrapped(init, n)
  {
    j := n - 1;
    if n > 1 && Wrapped(init, n - 1) <= MaxWrapped(init, n - 1) { j := MaxWrappedReached(init, n - 1); }
  }

  /** The loop ends if and only if the need is at most the largest of the first 32 sizes. */
  lemma LoopEndsIff(init: nat, need: nat)
    requires 0 < init < TWO32
    ensures (exists j: nat :: Wrapped(init, j) >= need) <==> need <= MaxWrapped(init, 32)
  {
    hide Wrapped, MaxWrapped;
    if need <= MaxWrapped(init, 32) {
      var j := MaxWrappedReached(init, 32);
      assert Wrapped(init, j) >= need;
    } else {
      forall j: nat ensures Wrapped(init, j) < need {
        if j < 32 { MaxWrappedBounds(init, 32, j); } else { WrappedZero(init, j); }
      }
    }
  }

  lemma {:induction false} LargestIs(init: nat) returns (k: nat)
    requires 0 < init < TWO32
    ensures SizeAt(init, k) == Largest(init)
    decreases TWO32 - init
  {
    hide SizeAt;
    if 2 * init < TWO32 {
      var i := LargestIs(2 * init);
      SizeOfDouble(init, i);
      k := i + 1;
    } else {
      SizeZero(init);
      k := 0;
    }
  }

  lemma SizeOfDouble(init: nat, k: nat)
    ensures SizeAt(2 * init, k) == SizeAt(init, k + 1)
  {
    MulNat(init, Pow2(k));
  }

  lemma BelowLargest(init: nat, m: nat)
    requires 0 < init < TWO32 && SizeAt(init, m) < TWO32
    ensures SizeAt(init, m) <= Largest(init)
  {
    hide SizeAt;
    var k := LargestIs(init);
    SizeNext(init, k);
    if m <= k { SizeMono(init, m, k); } else { SizeMono(init, k + 1, m); }
  }

  /** Every size up to max_size doubles exactly on 32 bits if and only if max_size is below the largest doubling they hold. */
  lemma DoublesExactlyIff(init: nat, maxSize: nat)
    requires 0 < init <= maxSize < TWO32
    ensures (forall k: nat :: SizeAt(init, k) <= maxSize ==> SizeAt(init, k) * 2 % TWO32 == 2 * SizeAt(init, k))
        <==> maxSize < Largest(init)
  {
    hide SizeAt, Largest;
    var last := LargestIs(init);
    if maxSize < Largest(init) {
      forall k: nat | SizeAt(init, k) <= maxSize ensures SizeAt(init, k) * 2 % TWO32 == 2 * SizeAt(init, k) {
        DoubleFits(init, k);
      }
    } else {
      assert SizeAt(init, last) * 2 % TWO32 != 2 * SizeAt(init, last);
    }
  }

  lemma DoubleFits(init: nat, k: nat)
    requires 0 < init < TWO32 && SizeAt(init, k) < Largest(init)
    ensures 2 * SizeAt(init, k) == SizeAt(init, k + 1) <= Largest(init)
  {
    hide SizeAt, Largest;
    var last := LargestIs(init);
    if last <= k { SizeMono(init, last, k); }
    SizeNext(init, k);
    SizeMono(init, k + 1, last);
  }

  /** dbuf_setup takes max_size from a number of doublings: one more must still fit 32 bits. */
  lemma SetupValidIff(hdr: nat, init: nat, power: nat)
    requires 0 < init < TWO32
    ensures Config(hdr, init, SizeAt(init, power)).Valid() <==> hdr < init && SizeAt(init, power + 1) < TWO32
  {
    hide SizeAt, Largest;
    SizeZero(init);
    SizeMono(init, 0, power);
    SizeNext(init, power);
    if SizeAt(init, power) < Largest(init) { DoubleFits(init, power); }
    if SizeAt(init, power + 1) < TWO32 {
      BelowLargest(init, power + 1);
    }
  }

  /** Up to the largest doubling nothing wraps. */
  lemma NotWrapped(init: nat, j: nat, k: nat)
    requires 0 < init < TWO32 && j <= k && SizeAt(init, k) == Largest(init)
    ensures Wrapped(init, j) == SizeAt(init, j)
  {
    hide SizeAt, Wrapped;
    SizeMono(init, j, k);
    WrappedIs(init, j);
  }

  lemma StopsAtLeast(init: nat, need: nat, k: nat)
    requires 0 < init < TWO32 && StopsAt(init, need, k) && need <= Largest(init)
    ensures IsLeast(init, need, k) && Wrapped(init, k) == SizeAt(init, k)
  {
    hide SizeAt, Wrapped;
    var last := LargestIs(init);
    NotWrapped(init, last, last);
    assert k <= last;
    NotWrapped(init, k, last);
    if k > 0 { NotWrapped(init, k - 1, last); }
  }

  lemma LargestReached(init: nat)
    requires 0 < init < TWO32
    ensures Largest(init) <= MaxWrapped(init, 32)
  {
    hide SizeAt, Wrapped, MaxWrapped, Largest;
    var k := LargestIs(init);
    NotWrapped(init, k, k);
    if k < 32 { MaxWrappedBounds(init, 32, k); } else { WrappedZero(init, k); }
  }

  /** The loop stops at the least doubling that fits if and only if 32 bits can hold one that does. */
  lemma StopsRightIff(init: nat, need: nat, k: nat)
    requires 0 < init < TWO32 && StopsAt(init, need, k)
    ensures (exists m: nat :: IsLeast(init, need, m) && Wrapped(init, k) == SizeAt(init, m)) <==> need <= Largest(init)
  {
    hide SizeAt, Wrapped;
    if need <= Largest(init) {
      StopsAtLeast(init, need, k);
    } else {
      forall m: nat | IsLeast(init, need, m) ensures Wrapped(init, k) != SizeAt(init, m) {
        WrappedIs(init, k);
        if SizeAt(init, m) < TWO32 { BelowLargest(init, m); }
      }
    }
  }

  /** 11 * 2^28 holds no doubling; a need of 3000000000 stops the loop at 3 * 2^30, and one above that never does. */
  lemma EndsWrong()
    ensures var init := 0xB000_0000;
            Largest(init) == init && StopsAt(init, 3_000_000_000, 2) && Wrapped(init, 2) == 0xC000_0000
  {
    assert Wrapped(0xB000_0000, 1) == 0x6000_0000;
    assert Wrapped(0xB000_0000, 2) == 0xC000_0000;
  }

  method FindSize(init: nat, need: nat) returns (nsize: nat, ghost k: nat)
    requires 0 < init < TWO32 && need <= MaxWrapped(init, 32)
    ensures nsize == Wrapped(init, k) && StopsAt(init, need, k) && need <= nsize
    ensures need <= Largest(init) ==>
              IsLeast(init, need, k) && forall j: nat :: SizeAt(init, j) >= need ==> nsize <= SizeAt(init, j)
  {
    hide SizeAt, MaxWrapped, Largest;
    ghost var last := MaxWrappedReached(init, 32);
    nsize, k := init, 0;
    while nsize < need
      invariant nsize == Wrapped(init, k) && k <= last && forall j :: 0 <= j < k ==> Wrapped(init, j) < need
      decreases last - k
    {
      nsize := nsize * 2 % TWO32;
      k := k + 1;
    }
    if need <= Largest(init) {
      StopsAtLeast(init, need, k);
      forall j: nat | SizeAt(init, j) >= need ensures nsize <= SizeAt(init, j) { LeastBelow(init, need, k, j); }
    }
  }

  lemma Pow2Next(k: nat)
    ensures Pow2(k + 1) == 2 * Pow2(k)
  {}

  lemma Pow2Words()
    ensures Pow2(31) == TWO31 && Pow2(32) == TWO32
  {
    hide Pow2;
    Pow2Thirty();
    Pow2Next(30);
    Pow2Next(31);
  }

  // ------------------------------------------------------------------
  // The buffer
  // ------------------------------------------------------------------

  /** struct buf; positions are offsets from `begin`, and realloc replaces `data`. */
  class Buf {
    const cfg: Config
    var data: array<Byte>
    var rpos: nat
    var wpos: nat
    ghost var power: nat  // how often the initial size was doubled

    ghost predicate Valid()
      reads this
    {
      && cfg.Valid() && rpos <= wpos <= data.Length
      && cfg.hdr + data.Length == SizeAt(cfg.initSize, power) <= cfg.maxSize
    }

    function Size(): nat
      reads this
    {
      cfg.hdr + data.Length
    }

    ghost function Unread(): seq<Byte>
      requires Valid()
      reads this, data
    {
      data[rpos..wpos]
    }

    constructor (cfg: Config)
      requires cfg.Valid()
      ensures Valid() && this.cfg == cfg && Size() == cfg.initSize && Unread() == [] && fresh(data)
    {
      this.cfg := cfg;
      data := new Byte[cfg.initSize - cfg.hdr];
      rpos, wpos, power := 0, 0, 0;
    }

    method Read(count: nat) returns (dst: seq<Byte>)
      requires Valid()
      modifies this`rpos
      ensures Valid() && |dst| == Min(count, |old(Unread())|) && old(Unread()) == dst + Unread()
    {
      var len := Min(wpos - rpos, count);
      dst := data[rpos..rpos + len];
      rpos := rpos + len;
    }

    method Write(src: seq<Byte>) returns (len: nat)
      requires Valid()
      modifies this`wpos, data
      ensures Valid() && len == Min(|src|, data.Length - old(wpos)) && wpos == old(wpos) + len
      ensures Unread() == old(Unread()) + src[..len]
    {
      len := Min(data.Length - wpos, |src|);
      ghost var was := Unread();
      CopyInto(data, wpos, src[..len]);
      assert data[rpos..wpos] == was;
      wpos := wpos + len;
    }

    method Lshift()
      requires Valid()
      modifies this`rpos, this`wpos, data
      ensures Valid() && rpos == 0 && Unread() == old(Unread())
    {
      var unread := data[rpos..wpos];
      CopyInto(data, 0, unread);
      rpos, wpos := 0, |unread|;
    }

    method Rshift()
      requires Valid()
      modifies this`rpos, this`wpos, data
      ensures Valid() && wpos == data.Length && Unread() == old(Unread())
    {
      var unread := data[rpos..wpos];
      CopyInto(data, data.Length - |unread|, unread);
      rpos, wpos := data.Length - |unread|, data.Length;
    }

    /** `oom` says whether realloc fails; then, as when the size is too large, nothing changes. */
    method Resize(nsize: nat, oom: bool, ghost k: nat) returns (status: Status)
      requires Valid() && (nsize <= cfg.maxSize ==> nsize == SizeAt(cfg.initSize, k) && cfg.hdr + wpos <= nsize)
      modifies this
      ensures Valid() && Unread() == old(Unread()) && rpos == old(rpos) && wpos == old(wpos)
      ensures status == if nsize > cfg.maxSize then ERROR else if oom then ENOMEM else OK
      ensures status.OK? ==> Size() == nsize && power == k && fresh(data)
      ensures !status.OK? ==> data == old(data) && power == old(power)
    {
      if nsize > cfg.maxSize { return ERROR; }
      if oom { return ENOMEM; }
      var ndata := new Byte[nsize - cfg.hdr];
      CopyInto(ndata, 0, data[..Min(data.Length, ndata.Length)]);
      assert ndata[rpos..wpos] == data[rpos..wpos];
      data, power := ndata, k;
      status := OK;
    }

    method Double(oom: bool) returns (status: Status)
      requires Valid()
      modifies this
      ensures Valid() && Unread() == old(Unread()) && rpos == old(rpos) && wpos == old(wpos)
      ensures status == if 2 * old(Size()) > cfg.maxSize then ERROR else if oom then ENOMEM else OK
      ensures status.OK? ==> Size() == 2 * old(Size()) && data.Length > old(data.Length) && fresh(data)
      ensures !status.OK? ==> data == old(data) && power == old(power)
    {
      hide Largest;
      DoubleFits(cfg.initSize, power);
      SizeMono(cfg.initSize, 0, power);
      var nsize := Size() * 2 % TWO32;
      status := Resize(nsize, oom, power + 1);
    }

    /** Resizes to the least size for `cap` bytes; fails only for want of room, of a size or of memory. */
    method Fit(cap: nat, oom: bool) returns (status: Status)
      requires Valid() && cap + cfg.hdr <= MaxWrapped(cfg.initSize, 32)
      modifies this, data
      ensures Valid() && Unread() == old(Unread())
      ensures |old(Unread())| > cap ==> rpos == old(rpos) && wpos == old(wpos)
      ensures status.OK? ==> IsLeast(cfg.initSize, cap + cfg.hdr, power)
      ensures !status.OK? ==> Size() == old(Size())
      ensures status.OK? || status.ERROR? || status.ENOMEM?
      ensures status.ENOMEM? ==> oom && !IsLeast(cfg.initSize, cap + cfg.hdr, old(power))
      ensures status.ERROR? <==> |Unread()| > cap || TooLarge(cfg, cap + cfg.hdr)
    {
      hide SizeAt, Wrapped, MaxWrapped, Largest;
      if wpos - rpos > cap { return ERROR; }
      Lshift();
      var nsize;
      ghost var k;
      nsize, k := FindSize(cfg.initSize, cap + cfg.hdr);
      if cap + cfg.hdr <= Largest(cfg.initSize) {
        StopsAtLeast(cfg.initSize, cap + cfg.hdr, k);
        OneLeast(cfg.initSize, cap + cfg.hdr, k, power);
        if nsize > cfg.maxSize { NoneFits(cfg, cap + cfg.hdr, k); }
      }
      status := OK;
      if nsize != Size() {
        status := Resize(nsize, oom, k);
      } else {
        power := k;
      }
    }

    /** Resizes to the least size for the unread bytes, which is never larger. */
    method Shrink(oom: bool) returns (status: Status)
      requires Valid()
      modifies this, data
      ensures Valid() && Unread() == old(Unread()) && Size() <= old(Size())
      ensures status.OK? ==> IsLeast(cfg.initSize, |Unread()| + cfg.hdr, power)
      ensures !status.OK? ==> status.ENOMEM? && Size() == old(Size())
      ensures status.ENOMEM? ==> oom && !IsLeast(cfg.initSize, |Unread()| + cfg.hdr, old(power))
    {
      hide SizeAt, Wrapped, MaxWrapped, Largest;
      var cap := wpos - rpos;
      Lshift();
      var nsize;
      ghost var k;
      LargestReached(cfg.initSize);
      nsize, k := FindSize(cfg.initSize, cap + cfg.hdr);
      StopsAtLeast(cfg.initSize, cap + cfg.hdr, k);
      LeastBelow(cfg.initSize, cap + cfg.hdr, k, power);
      OneLeast(cfg.initSize, cap + cfg.hdr, k, power);
      status := OK;
      if nsize != Size() {
        status := Resize(nsize, oom, k);
      } else {
        power := k;
      }
    }
  }

  // ------------------------------------------------------------------
  // Receiving
  // ------------------------------------------------------------------

  /** What recv finds: bytes waiting (none at all: the peer has closed), nothing yet, or a failure. */
  datatype Recv = Waiting(bytes: seq<Byte>) | Again | Failed

  datatype Channel = OPEN | TERM | BROKEN

  /** Each piece is the start of what its receive found. */
  ghost predicate FromPeer(recv: nat -> Recv, pieces: seq<seq<Byte>>) {
    forall j :: 0 <= j < |pieces| ==> recv(j).Waiting? && pieces[j] != [] && pieces[j] <= recv(j).bytes
  }

  /** Why the loop stopped, given what it had received. */
  ghost predicate StopsWith(status: Status, recv: nat -> Recv, pieces: seq<seq<Byte>>) {
    var m := |pieces|;
    match status
    case OK => recv(m).Again? || (m > 0 && recv(m - 1) == Waiting(pieces[m - 1]))
    case ERROR => recv(m).Failed?
    case ERDHUP => recv(m) == Waiting([])
    case _ => true
  }

  /** Every receive but perhaps the last filled the buffer to the end of one of its sizes. */
  ghost predicate WentOnWhenFull(start: nat, size: nat, pieces: seq<seq<Byte>>, doubled: nat, butLast: bool) {
    forall j :: 1 <= j <= |pieces| - (if butLast then 1 else 0) ==> FillsASize(start, size, pieces[..j], doubled)
  }

  ghost predicate FillsASize(start: nat, size: nat, pieces: seq<seq<Byte>>, doubled: nat) {
    exists d: nat :: d <= doubled && start + |Flatten(pieces)| == SizeAt(size, d)
  }

  /**
   * dbuf_tcp_read. `recv` and `oom` answer the i-th receive and the i-th reallocation as they like.
   * The loop goes on only while a receive fills the buffer, so it ends for all of them.
   */
  method TcpRead(buf: Buf, recv: nat -> Recv, oom: nat -> bool)
    returns (status: Status, ch: Channel, pieces: seq<seq<Byte>>, doubled: nat)
    requires buf.Valid()
    modifies buf, buf.data
    ensures buf.Valid() && buf.Size() == SizeAt(old(buf.Size()), doubled) <= buf.cfg.maxSize
    ensures buf.Unread() == old(buf.Unread()) + Flatten(pieces)
    ensures FromPeer(recv, pieces) && StopsWith(status, recv, pieces)
    ensures status.OK? ==> recv(|pieces|).Again? || buf.wpos < buf.data.Length
    ensures WentOnWhenFull(old(buf.wpos) + buf.cfg.hdr, old(buf.Size()), pieces, doubled, status.OK?)
    ensures doubled > 0 ==> 2 * (buf.cfg.hdr + buf.wpos) >= buf.Size()
    ensures ch == if status.ERROR? then BROKEN else if status.ERDHUP? then TERM else OPEN
    ensures !status.ENOMEM?
    ensures status.ERETRY? ==> buf.wpos == buf.data.Length && (2 * buf.Size() > buf.cfg.maxSize || oom(doubled))
  {
    hide SizeAt, Flatten, FromPeer, Buf.Valid, Buf.Unread, WentOnWhenFull;
    NothingReceived(recv);
    ghost var start, size := buf.wpos + buf.cfg.hdr, buf.Size();
    FilledSoFar(start, size, [], 0, 0, [], false);
    SizeZero(buf.Size());
    ch, pieces, doubled := OPEN, [], 0;
    FlattenNone<Byte>();
    while true
      invariant buf.Valid() && (buf.data == old(buf.data) || fresh(buf.data))
      invariant buf.Unread() == old(buf.Unread()) + Flatten(pieces) && FromPeer(recv, pieces)
      invariant buf.Size() == SizeAt(old(buf.Size()), doubled) && buf.wpos == old(buf.wpos) + |Flatten(pieces)|
      invariant WentOnWhenFull(old(buf.wpos) + buf.cfg.hdr, old(buf.Size()), pieces, doubled, false)
      invariant doubled > 0 ==> 2 * (buf.cfg.hdr + buf.wpos) >= buf.Size()
      decreases buf.cfg.maxSize - buf.Size(), buf.data.Length - buf.wpos
    {
      var n, grew, more;
      ghost var before := doubled;
      status, ch, n, grew, more := Round(buf, recv(|pieces|), oom(doubled));
      if grew {
        SizeNext(old(buf.Size()), doubled);
        doubled := doubled + 1;
      }
      if n > 0 {
        var piece := recv(|pieces|).bytes[..n];
        FlattenSnoc(pieces, piece);
        OneMoreReceived(recv, pieces, piece);
        FilledSoFar(start, size, pieces, before, doubled, piece, more);
        pieces := pieces + [piece];
      } else {
        FilledSoFar(start, size, pieces, before, doubled, [], false);
      }
      if !more { return; }
    }
  }

  /** One round of the loop; it goes on only when a receive filled the buffer. */
  method Round(buf: Buf, answer: Recv, oom: bool) returns (status: Status, ch: Channel, n: nat, grew: bool, more: bool)
    requires buf.Valid()
    modifies buf, buf.data
    ensures buf.Valid() && buf.Size() <= buf.cfg.maxSize && (buf.data == old(buf.data) || fresh(buf.data))
    ensures n > 0 ==> answer.Waiting? && n <= |answer.bytes| && status.OK? && ch.OPEN?
    ensures buf.Unread() == old(buf.Unread()) + if n > 0 then answer.bytes[..n] else []
    ensures buf.Size() == if grew then 2 * old(buf.Size()) else old(buf.Size())
    ensures n > 0 && !more ==> n == |answer.bytes|
    ensures more <==> n > 0 && buf.wpos == buf.data.Length
    ensures buf.wpos == old(buf.wpos) + n <= buf.data.Length
    ensures grew ==> buf.Size() > old(buf.Size())
    ensures grew <==> old(buf.wpos == buf.data.Length) && !status.ERETRY?
    ensures n == 0 && !status.ERETRY? ==> match answer
                                          case Again => status.OK? && ch.OPEN?
                                          case Failed => status.ERROR? && ch.BROKEN?
                                          case Waiting(bytes) => bytes == [] && status.ERDHUP? && ch.TERM?
    ensures status.ERETRY? ==> ch.OPEN? && n == 0 && !grew && buf.wpos == buf.data.Length && (2 * buf.Size() > buf.cfg.maxSize || oom)
  {
    hide SizeAt;
    grew, n, more := false, 0, false;
    if buf.wpos == buf.data.Length {
      status := buf.Double(oom);
      if !status.OK? { return ERETRY, OPEN, 0, false, false; }
      grew := true;
    }
    var cap;
    status, ch, n, cap := ReceiveOnce(buf, answer);
    more := n == cap;
  }

  lemma FilledSoFar(start: nat, size: nat, pieces: seq<seq<Byte>>, before: nat, doubled: nat, piece: seq<Byte>, full: bool)
    requires (pieces == [] || WentOnWhenFull(start, size, pieces, before, false)) && before <= doubled
    requires full ==> start + |Flatten(pieces + [piece])| == SizeAt(size, doubled)
    ensures WentOnWhenFull(start, size, pieces, doubled, false) && WentOnWhenFull(start, size, pieces, doubled, true)
    ensures WentOnWhenFull(start, size, pieces + [piece], doubled, !full)
  {
    hide SizeAt, Flatten;
    forall j | 1 <= j <= |pieces| ensures FillsASize(start, size, pieces[..j], doubled) {
      assert FillsASize(start, size, pieces[..j], before);
    }
    var all := pieces + [piece];
    forall j | 1 <= j <= |all| - (if full then 0 else 1) ensures FillsASize(start, size, all[..j], doubled) {
      if j <= |pieces| { assert all[..j] == pieces[..j]; } else { assert all[..j] == all; }
    }
  }

  lemma NothingReceived(recv: nat -> Recv)
    ensures FromPeer(recv, [])
  {}

  lemma OneMoreReceived(recv: nat -> Recv, pieces: seq<seq<Byte>>, piece: seq<Byte>)
    requires FromPeer(recv, pieces) && recv(|pieces|).Waiting? && [] != piece <= recv(|pieces|).bytes
    ensures FromPeer(recv, pieces + [piece])
  {}

  /** One recv into the free space, which is not empty; n is 0 when nothing was received. */
  method ReceiveOnce(buf: Buf, answer: Recv) returns (status: Status, ch: Channel, n: nat, cap: nat)
    requires buf.Valid() && buf.wpos < buf.data.Length
    modifies buf`wpos, buf.data
    ensures buf.Valid() && cap == old(buf.data.Length - buf.wpos) && n <= cap
    ensures buf.wpos == old(buf.wpos) + n
    ensures n > 0 ==> answer.Waiting? && n == Min(|answer.bytes|, cap) && status.OK? && ch.OPEN?
    ensures n > 0 ==> buf.Unread() == old(buf.Unread()) + answer.bytes[..n]
    ensures n == 0 ==> buf.Unread() == old(buf.Unread())
    ensures n == 0 ==> match answer
                       case Again => status.OK? && ch.OPEN?
                       case Failed => status.ERROR? && ch.BROKEN?
                       case Waiting(bytes) => bytes == [] && status.ERDHUP? && ch.TERM?
  {
    cap := buf.data.Length - buf.wpos;
    n := 0;
    match answer {
      case Again => status, ch := OK, OPEN;
      case Failed => status, ch := ERROR, BROKEN;
      case Waiting(bytes) =>
        n := Min(|bytes|, cap);
        if n == 0 {
          status, ch := ERDHUP, TERM;
        } else {
          n := buf.Write(bytes);
          status, ch := OK, OPEN;
        }
    }
  }
}
