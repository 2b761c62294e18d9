/** The logger over the ring buffer (src/cc_log.c), with a file that may accept any part of a write. */
module Log {
  import opened Bytes
  import opened Rbuf

  /** What write(fd, p, n) returns when the system would answer `r`: -1, or some of the n bytes. */
  function WriteResult(r: int, n: nat): int { if r < 0 then -1 else Min(r, n) }

  function Taken(r: int, n: nat): nat { if r < 0 then 0 else Min(r, n) }

  /** What a flush sends from these positions: the second write is made when the first took all it was given. */
  function Sent(rpos: nat, wpos: nat, cap: nat, r1: int, r2: int): nat
    requires Legal(rpos, wpos, cap)
  {
    if wpos < rpos then
      var c := cap - rpos + 1;
      Taken(r1, c) + if r1 >= c then Taken(r2, wpos) else 0
    else Taken(r1, wpos - rpos)
  }

  /** All that is unread goes out if and only if both writes are complete; a short answer is taken at its word. */
  lemma SentIs(rpos: nat, wpos: nat, cap: nat, r1: int, r2: int)
    requires Legal(rpos, wpos, cap)
    ensures var n, first := Sent(rpos, wpos, cap, r1, r2), if wpos < rpos then cap + 1 - rpos else wpos - rpos;
            && n <= RcapOf(rpos, wpos, cap)
            && (n == RcapOf(rpos, wpos, cap) <==> (r1 >= first || first == 0) && (wpos < rpos && wpos > 0 ==> r1 >= first && r2 >= wpos))
            && (r1 < 0 ==> n == 0)
            && (0 <= r1 < first ==> n == r1)
            && (wpos < rpos && first <= r1 && 0 <= r2 <= wpos ==> n == first + r2)
            && (wpos < rpos && first <= r1 && r2 < 0 ==> n == first)
  {}

  class Logger {
    const buf: Ring?
    const fd: int
    ghost var file: seq<Byte>             // the bytes the system has accepted, in order
    ghost var accepted: seq<seq<Byte>>    // the messages log_write answered true for

    ghost predicate Valid()
      reads this, buf, if buf == null then {} else {buf.data}
    {
      buf != null ==> buf.Valid() && Flatten(accepted) == file + buf.Contents()
    }

    constructor (fd: int, cap: nat)
      requires cap < TWO32
      ensures Valid() && file == [] && accepted == [] && this.fd == fd
      ensures cap == 0 <==> buf == null
      ensures buf != null ==> fresh(buf) && fresh(buf.data) && buf.cap == cap && buf.Contents() == []
    {
      this.fd := fd;
      if cap > 0 {
        var b := new Ring(cap);
        buf := b;
      } else {
        buf := null;
      }
      file, accepted := [], [];
    }

    /** Buffered messages are taken whole or not at all, and always when they fit. */
    method Write(msg: seq<Byte>) returns (ok: bool)
      requires Valid() && buf != null && |msg| < TWO32
      modifies this, buf, buf.data
      ensures Valid() && file == old(file)
      ensures ok <==> |msg| <= buf.cap - |old(buf.Contents())|
      ensures accepted == if ok then old(accepted) + [msg] else old(accepted)
      ensures buf.Contents() == old(buf.Contents()) + if ok then msg else []
    {
      hide WriteFits, WritePlan, Written, Window;
      var room := buf.Wcap();
      ok := room >= |msg|;
      if ok {
        GuardedWriteFits(buf.rpos, buf.wpos, buf.cap, |msg|);
        var n := buf.Write(msg);
        assert msg[..n] == msg;
        accepted := accepted + [msg];
        FlattenSnoc(old(accepted), msg);
      }
    }

    /** Without a buffer a short write is answered false although part of the message is out. */
    method WriteDirect(msg: seq<Byte>, r: int) returns (ok: bool)
      requires Valid() && buf == null
      modifies this
      ensures Valid()
      ensures ok <==> fd >= 0 && Taken(r, |msg|) == |msg| && r >= 0
      ensures file == old(file) + if fd < 0 then [] else msg[..Taken(r, |msg|)]
      ensures accepted == if ok then old(accepted) + [msg] else old(accepted)
    {
      if fd < 0 { return false; }
      var n := WriteResult(r, |msg|);
      file := file + msg[..Taken(r, |msg|)];
      ok := n >= |msg|;
      if ok { accepted := accepted + [msg]; }
    }

    /** _rbuf_flush: one write up to the end of the ring, and one more from its start if the first was complete. */
    method FlushRing(r1: int, r2: int) returns (ret: int)
      requires Valid() && buf != null
      modifies this`file, buf`rpos
      ensures Valid() && buf.wpos == old(buf.wpos)
      ensures old(file) <= file && |file| == |old(file)| + if ret < 0 then 0 else ret
      ensures |file| == |old(file)| + Sent(old(buf.rpos), buf.wpos, buf.cap, r1, r2)
      ensures ret < 0 <==> r1 < 0
      ensures file + buf.Contents() == old(file + buf.Contents())
      ensures r1 > buf.cap && r2 > buf.cap ==> buf.Contents() == []
    {
      hide Window, U32, Ring.Contents;
      var out;
      ret, out := Send(buf, r1, r2);
      file := file + out;
      assert old(file) + (out + buf.Contents()) == file + buf.Contents();
    }

    method Flush(r1: int, r2: int) returns (n: nat)
      requires Valid()
      modifies this`file, if buf == null then {} else {buf}
      ensures Valid() && accepted == old(accepted)
      ensures |file| == |old(file)| + n && old(file) <= file
      ensures n == if buf == null || fd < 0 then 0 else Sent(old(buf.rpos), old(buf.wpos), buf.cap, r1, r2)
    {
      if buf == null || fd < 0 { return 0; }
      var ret := FlushRing(r1, r2);
      n := if ret > 0 then ret else 0;
    }
  }

  /** The writes of a flush; `out` is what the system took of the unread bytes. */
  method Send(buf: Ring, r1: int, r2: int) returns (ret: int, out: seq<Byte>)
    requires buf.Valid()
    modifies buf`rpos
    ensures buf.Valid() && |out| == if ret < 0 then 0 else ret
    ensures |out| == Sent(old(buf.rpos), buf.wpos, buf.cap, r1, r2) && (ret < 0 <==> r1 < 0)
    ensures old(buf.Contents()) == out + buf.Contents()
    ensures r1 > buf.cap && r2 > buf.cap ==> buf.Contents() == []
  {
    hide Window, U32;
    if buf.wpos < buf.rpos {
      var capacity := buf.cap - buf.rpos + 1;
      ret := WriteResult(r1, capacity);
      var ret2 := if ret == capacity then WriteResult(r2, buf.wpos) else -1;
      if ret2 >= 0 {
        out := buf.TakeAround(ret2);
        ret := ret + ret2;
      } else {
        out := buf.TakeRun(Taken(r1, capacity));
      }
    } else {
      var capacity := buf.wpos - buf.rpos;
      ret := WriteResult(r1, capacity);
      out := buf.TakeRun(Taken(r1, capacity));
    }
  }
}
