/**
 * XXH32 and XXH64 (include/hash/xxhash.h): four lanes over stripes of four
 * words, one-shot and streaming. Both widths share one model; where the source
 * differs (length counters, finalisation) the width decides.
 *
 * Rounds, merges and finalisation steps are parameters.
 */
module Xxh {
  import opened Bytes
  import opened Arith

  datatype Width = W32 | W64 {
    function Word(): nat { if W32? then 4 else 8 }
    function Stripe(): nat { if W32? then 16 else 32 }
    function Modulus(): (m: nat)
      ensures m > 0
    {
      if W32? then TWO32 else TWO64
    }
    function Prime1(): nat { if W32? then 0x9E3779B1 else 0x9E3779B185EBCA87 }
    function Prime2(): nat { if W32? then 0x85EBCA77 else 0xC2B2AE3D27D4EB4F }
    function Prime5(): nat { if W32? then 0x165667B1 else 0x27D4EB2F165667C5 }
  }

  datatype Lanes = Lanes(v1: nat, v2: nat, v3: nat, v4: nat)

  datatype Mixing = Mixing(
    round: (nat, seq<Byte>) -> nat,
    converge: Lanes -> nat,
    step: (Op, nat, seq<Byte>) -> nat,
    avalanche: nat -> nat)

  /** XXH_PROCESS8, XXH_PROCESS4 and XXH_PROCESS1. */
  datatype Op = P8 | P4 | P1 {
    function Size(): nat { match this case P8 => 8 case P4 => 4 case P1 => 1 }
  }

  function Start(w: Width, seed: nat): Lanes {
    Lanes((seed + w.Prime1() + w.Prime2()) % w.Modulus(), (seed + w.Prime2()) % w.Modulus(),
          seed, (seed + w.Modulus() - w.Prime1()) % w.Modulus())
  }

  lemma SeedLane(w: Width, seed: nat)
    ensures Start(w, seed).v3 == seed
  {}

  /** The lanes start at seed + P1 + P2, seed + P2, seed and seed - P1. */
  lemma StartLanes(w: Width, seed: nat)
    ensures var v, m := Start(w, seed), if w.W32? then 0x1_0000_0000 else 0x1_0000_0000_0000_0000;
            var p1 := if w.W32? then 0x9E3779B1 else 0x9E3779B185EBCA87;
            var p2 := if w.W32? then 0x85EBCA77 else 0xC2B2AE3D27D4EB4F;
            && v.v3 == seed && v.v2 == (v.v3 + p2) % m && v.v1 == (v.v2 + p1) % m && (v.v4 + p1) % m == seed % m
            && v.v4 < m
  {
    ModAdd(seed + w.Prime2(), w.Prime1(), w.Modulus());
    ModAdd(seed + w.Modulus() - w.Prime1(), w.Prime1(), w.Modulus());
    ModShift(seed, 1, w.Modulus());
  }

  function Round4(w: Width, m: Mixing, v: Lanes, s: seq<Byte>): Lanes
    requires w.Stripe() <= |s|
  {
    var k := w.Word();
    Lanes(m.round(v.v1, s[..k]), m.round(v.v2, s[k..2 * k]),
          m.round(v.v3, s[2 * k..3 * k]), m.round(v.v4, s[3 * k..4 * k]))
  }

  // ------------------------------------------------------------------
  // Reference: consume whole stripes, keep the tail
  // ------------------------------------------------------------------

  function Rounds(w: Width, m: Mixing, v: Lanes, input: seq<Byte>): Lanes
    decreases |input|
  {
    if |input| < w.Stripe() then v
    else Rounds(w, m, Round4(w, m, v, input[..w.Stripe()]), input[w.Stripe()..])
  }

  function Tail(w: Width, input: seq<Byte>): (t: seq<Byte>)
    ensures |t| < w.Stripe()
    decreases |input|
  {
    if |input| < w.Stripe() then input else Tail(w, input[w.Stripe()..])
  }

  function Finalize(w: Width, m: Mixing, h: nat, tail: seq<Byte>): nat {
    m.avalanche(RunOps(m, LoopOps(w, |tail|), h, tail))
  }

  ghost function Hash(w: Width, m: Mixing, seed: nat, input: seq<Byte>): nat {
    var h := if |input| >= w.Stripe() then m.converge(Rounds(w, m, Start(w, seed), input))
             else seed + w.Prime5();
    Finalize(w, m, (h + |input|) % w.Modulus(), Tail(w, input))
  }

  /** Feeding `a` then `b` is feeding `b` behind the tail of `a`. */
  lemma {:induction false} Feed(w: Width, m: Mixing, v: Lanes, a: seq<Byte>, b: seq<Byte>)
    ensures Rounds(w, m, v, a + b) == Rounds(w, m, Rounds(w, m, v, a), Tail(w, a) + b)
    ensures Tail(w, a + b) == Tail(w, Tail(w, a) + b)
    decreases |a|
  {
    var s := w.Stripe();
    if |a| >= s {
      assert (a + b)[..s] == a[..s] && (a + b)[s..] == a[s..] + b;
      Feed(w, m, Round4(w, m, v, a[..s]), a[s..], b);
    }
  }

  lemma {:induction false} TailLength(w: Width, input: seq<Byte>)
    ensures |Tail(w, input)| == |input| % w.Stripe()
    decreases |input|
  {
    if |input| >= w.Stripe() { TailLength(w, input[w.Stripe()..]); }
  }

  lemma OneMore(w: Width, m: Mixing, v: Lanes, input: seq<Byte>)
    requires |input| >= w.Stripe()
    ensures Rounds(w, m, v, input) == Rounds(w, m, Round4(w, m, v, input[..w.Stripe()]), input[w.Stripe()..])
    ensures Tail(w, input) == Tail(w, input[w.Stripe()..])
  {}

  lemma NoMore(w: Width, m: Mixing, v: Lanes, input: seq<Byte>)
    requires |input| < w.Stripe()
    ensures Rounds(w, m, v, input) == v && Tail(w, input) == input
  {}

  // ------------------------------------------------------------------
  // Finalisation: the rerolled loops and the unrolled switch
  // ------------------------------------------------------------------

  function RunOps(m: Mixing, ops: seq<Op>, h: nat, tail: seq<Byte>): nat
    decreases |ops|
  {
    if ops == [] || |tail| < ops[0].Size() then h
    else RunOps(m, ops[1..], m.step(ops[0], h, tail[..ops[0].Size()]), tail[ops[0].Size()..])
  }

  /** The steps of the compact loops for `n` remaining bytes. */
  function LoopOps(w: Width, n: nat): seq<Op> {
    if w.W64? && n >= 8 then [P8] + LoopOps(w, n - 8)
    else if n >= 4 then [P4] + LoopOps(w, n - 4)
    else if n > 0 then [P1] + LoopOps(w, n - 1)
    else []
  }

  /** The steps reached from `case n` of the 32-bit switch, following its fallthroughs. */
  function SwitchOps32(n: nat): seq<Op>
    requires n < 16
  {
    match n
    case 12 | 8 => [P4] + SwitchOps32(n - 4)
    case 4 => [P4]
    case 13 | 9 => [P4] + SwitchOps32(n - 4)
    case 5 => [P4, P1]
    case 14 | 10 => [P4] + SwitchOps32(n - 4)
    case 6 => [P4, P1, P1]
    case 15 | 11 => [P4] + SwitchOps32(n - 4)
    case 7 => [P4] + SwitchOps32(3)
    case 3 | 2 | 1 => [P1] + SwitchOps32(n - 1)
    case 0 => []
  }

  /** The steps reached from `case n` of the 64-bit switch, following its fallthroughs. */
  function SwitchOps64(n: nat): seq<Op>
    requires n < 32
  {
    match n
    case 24 | 16 => [P8] + SwitchOps64(n - 8)
    case 8 => [P8]
    case 28 | 20 | 12 => [P8] + SwitchOps64(n - 8)
    case 4 => [P4]
    case 25 | 17 => [P8] + SwitchOps64(n - 8)
    case 9 => [P8, P1]
    case 29 | 21 | 13 => [P8] + SwitchOps64(n - 8)
    case 5 => [P4, P1]
    case 26 | 18 => [P8] + SwitchOps64(n - 8)
    case 10 => [P8, P1, P1]
    case 30 | 22 | 14 => [P8] + SwitchOps64(n - 8)
    case 6 => [P4, P1, P1]
    case 27 | 19 => [P8] + SwitchOps64(n - 8)
    case 11 => [P8, P1, P1, P1]
    case 31 | 23 | 15 => [P8] + SwitchOps64(n - 8)
    case 7 => [P4] + SwitchOps64(3)
    case 3 | 2 | 1 => [P1] + SwitchOps64(n - 1)
    case 0 => []
  }

  lemma {:induction false} SwitchIsLoop32(n: nat)
    requires n < 16
    ensures SwitchOps32(n) == LoopOps(W32, n)
  {
    if n >= 4 { SwitchIsLoop32(n - 4); } else if n > 0 { SwitchIsLoop32(n - 1); }
    ShortTail(W32);
  }

  lemma {:induction false} SwitchIsLoop64(n: nat)
    requires n < 32
    ensures SwitchOps64(n) == LoopOps(W64, n)
  {
    if n >= 8 { SwitchIsLoop64(n - 8); } else if n >= 4 { SwitchIsLoop64(n - 4); } else if n > 0 { SwitchIsLoop64(n - 1); }
    ShortTail(W64);
  }

  lemma ShortTail(w: Width)
    ensures LoopOps(w, 0) == [] && LoopOps(w, 1) == [P1] && LoopOps(w, 2) == [P1, P1] && LoopOps(w, 3) == [P1, P1, P1]
  {
    assert LoopOps(w, 1) == [P1] + LoopOps(w, 0);
    assert LoopOps(w, 2) == [P1] + LoopOps(w, 1);
    assert LoopOps(w, 3) == [P1] + LoopOps(w, 2);
  }

  // ------------------------------------------------------------------
  // Which bytes go where: what mixers leave that only record
  // ------------------------------------------------------------------

  /** `h` with the bytes written behind it, in base 256. */
  function Spell(h: nat, bytes: seq<Byte>): nat {
    if bytes == [] then h else Spell(h, bytes[..|bytes| - 1]) * 256 + bytes[|bytes| - 1] as nat
  }

  lemma {:induction false} SpellConcat(h: nat, a: seq<Byte>, b: seq<Byte>)
    ensures Spell(h, a + b) == Spell(Spell(h, a), b)
  {
    if b == [] {
      assert a + b == a;
    } else {
      assert (a + b)[..|a + b| - 1] == a + b[..|b| - 1];
      SpellConcat(h, a, b[..|b| - 1]);
    }
  }

  /** Different bytes spell differently. */
  lemma {:induction false} SpellInjective(h: nat, a: seq<Byte>, b: seq<Byte>)
    requires |a| == |b| && Spell(h, a) == Spell(h, b)
    ensures a == b
  {
    if a != [] {
      var i, j := a[..|a| - 1], b[..|b| - 1];
      assert Spell(h, i) == Spell(h, j) && a[|a| - 1] == b[|b| - 1];
      SpellInjective(h, i, j);
      assert a == i + [a[|a| - 1]] && b == j + [b[|b| - 1]];
    }
  }

  ghost predicate SpellsTail(m: Mixing) {
    forall op: Op, h: nat, b: seq<Byte> :: |b| == op.Size() ==> m.step(op, h, b) == Spell(h, b)
  }

  lemma FirstStep(w: Width, m: Mixing, h: nat, tail: seq<Byte>) returns (op: Op)
    requires tail != []
    ensures 0 < op.Size() <= |tail|
    ensures RunOps(m, LoopOps(w, |tail|), h, tail)
         == RunOps(m, LoopOps(w, |tail| - op.Size()), m.step(op, h, tail[..op.Size()]), tail[op.Size()..])
  {
    op := LoopOps(w, |tail|)[0];
    assert LoopOps(w, |tail|)[1..] == LoopOps(w, |tail| - op.Size());
  }

  lemma NoStep(w: Width, m: Mixing, h: nat)
    ensures RunOps(m, LoopOps(w, 0), h, []) == h == Spell(h, [])
  {}

  /** The finalisation steps take every byte of the tail once, in order. */
  lemma {:induction false} TailReaches(w: Width, m: Mixing, h: nat, tail: seq<Byte>)
    requires SpellsTail(m)
    ensures RunOps(m, LoopOps(w, |tail|), h, tail) == Spell(h, tail)
    decreases |tail|
  {
    hide RunOps, LoopOps, Spell;
    if tail == [] {
      NoStep(w, m, h);
    } else {
      var op := FirstStep(w, m, h, tail);
      var n := op.Size();
      TailReaches(w, m, m.step(op, h, tail[..n]), tail[n..]);
      SpellConcat(h, tail[..n], tail[n..]);
      assert tail[..n] + tail[n..] == tail;
    }
  }

  function Times(op: Op, n: nat): seq<Op> { seq(n, _ => op) }

  lemma TimesNext(op: Op, n: nat, rest: seq<Op>)
    requires n > 0
    ensures [op] + (Times(op, n - 1) + rest) == Times(op, n) + rest
  {}

  lemma {:induction false} FoursThenOnes(w: Width, n: nat)
    requires w.W32? || n < 8
    ensures LoopOps(w, n) == Times(P4, n / 4) + Times(P1, n % 4)
  {
    hide Times;
    if n >= 4 {
      FoursThenOnes(w, n - 4);
      TimesNext(P4, n / 4, Times(P1, n % 4));
    } else {
      ShortTail(w);
      FewOnes();
    }
  }

  lemma FewOnes()
    ensures Times(P4, 0) == [] && Times(P1, 0) == [] && Times(P1, 1) == [P1]
    ensures Times(P1, 2) == [P1, P1] && Times(P1, 3) == [P1, P1, P1]
  {}

  /** Eight bytes at a time only at the 64-bit width, then four, then one. */
  lemma {:induction false} LoopOpsAre(w: Width, n: nat)
    ensures LoopOps(w, n)
         == if w.W32? then Times(P4, n / 4) + Times(P1, n % 4) else Times(P8, n / 8) + (Times(P4, n % 8 / 4) + Times(P1, n % 4))
  {
    hide Times;
    if w.W32? || n < 8 {
      FoursThenOnes(w, n);
      NoEights(Times(P4, n % 8 / 4) + Times(P1, n % 4));
    } else {
      LoopOpsAre(w, n - 8);
      assert n % 4 == (n - 8) % 4;
      TimesNext(P8, n / 8, Times(P4, n % 8 / 4) + Times(P1, n % 4));
    }
  }

  lemma NoEights(rest: seq<Op>)
    ensures Times(P8, 0) + rest == rest
  {}

  /** Byte `at` of every whole stripe. */
  function Column(w: Width, input: seq<Byte>, at: nat): (c: seq<Byte>)
    requires at < w.Stripe()
    ensures |c| == |input| / if w.W32? then 16 else 32
    ensures forall q :: 0 <= q < |c| ==> c[q] == if w.W32? then input[16 * q + at] else input[32 * q + at]
  {
    var n := |input| / w.Stripe();
    seq(n, q requires 0 <= q < n => if w.W32? then input[16 * q + at] else input[32 * q + at])
  }

  lemma ColumnFirst(w: Width, input: seq<Byte>, at: nat)
    requires at < w.Stripe() <= |input|
    ensures Column(w, input, at) == [input[at]] + Column(w, input[w.Stripe()..], at)
  {
    var c, d := Column(w, input, at), Column(w, input[w.Stripe()..], at);
    assert |c| == 1 + |d|;
    forall q | 0 <= q < |c| ensures c[q] == ([input[at]] + d)[q] {}
  }

  ghost predicate SpellsByte(w: Width, m: Mixing, b: nat)
    requires b < w.Word()
  {
    forall h: nat, s: seq<Byte> :: |s| == w.Word() ==> m.round(h, s) == Spell(h, [s[b]])
  }

  /** Lane j takes word j of every whole stripe, in order. */
  lemma {:induction false} LanesTrace(w: Width, m: Mixing, v: Lanes, input: seq<Byte>, b: nat)
    requires b < w.Word() && SpellsByte(w, m, b)
    ensures var r, k := Rounds(w, m, v, input), if w.W32? then 4 else 8;
            && r.v1 == Spell(v.v1, Column(w, input, b)) && r.v2 == Spell(v.v2, Column(w, input, k + b))
            && r.v3 == Spell(v.v3, Column(w, input, 2 * k + b)) && r.v4 == Spell(v.v4, Column(w, input, 3 * k + b))
    decreases |input|
  {
    hide Column, Spell;
    var k := w.Word();
    if |input| >= w.Stripe() {
      var v' := Round4(w, m, v, input[..w.Stripe()]);
      LanesTrace(w, m, v', input[w.Stripe()..], b);
      LaneStep(w, input, v.v1, b);
      LaneStep(w, input, v.v2, k + b);
      LaneStep(w, input, v.v3, 2 * k + b);
      LaneStep(w, input, v.v4, 3 * k + b);
      RoundBytes(w, m, v, input, b);
    } else {
      NoColumn(w, input, v.v1, b);
      NoColumn(w, input, v.v2, k + b);
      NoColumn(w, input, v.v3, 2 * k + b);
      NoColumn(w, input, v.v4, 3 * k + b);
    }
  }

  lemma RoundBytes(w: Width, m: Mixing, v: Lanes, input: seq<Byte>, b: nat)
    requires b < w.Word() && SpellsByte(w, m, b) && |input| >= w.Stripe()
    ensures var r, k := Round4(w, m, v, input[..w.Stripe()]), w.Word();
            && r.v1 == Spell(v.v1, [input[b]]) && r.v2 == Spell(v.v2, [input[k + b]])
            && r.v3 == Spell(v.v3, [input[2 * k + b]]) && r.v4 == Spell(v.v4, [input[3 * k + b]])
  {
    hide Spell, Width.Word, Width.Stripe;
    var s, k := input[..w.Stripe()], w.Word();
    FourWords(w);
    RoundByte(w, m, v.v1, s, 0, b);
    RoundByte(w, m, v.v2, s, k, b);
    RoundByte(w, m, v.v3, s, 2 * k, b);
    RoundByte(w, m, v.v4, s, 3 * k, b);
  }

  lemma FourWords(w: Width)
    ensures w.Stripe() == 4 * w.Word()
  {}

  lemma RoundByte(w: Width, m: Mixing, h: nat, s: seq<Byte>, at: nat, b: nat)
    requires b < w.Word() && SpellsByte(w, m, b) && at + w.Word() <= |s|
    ensures m.round(h, s[at..at + w.Word()]) == Spell(h, [s[at + b]])
  {}

  lemma LaneStep(w: Width, input: seq<Byte>, h: nat, at: nat)
    requires at < w.Stripe() <= |input|
    ensures Spell(h, Column(w, input, at)) == Spell(Spell(h, [input[at]]), Column(w, input[w.Stripe()..], at))
  {
    ColumnFirst(w, input, at);
    SpellConcat(h, [input[at]], Column(w, input[w.Stripe()..], at));
  }

  lemma NoColumn(w: Width, input: seq<Byte>, h: nat, at: nat)
    requires at < w.Stripe() && |input| < w.Stripe()
    ensures Spell(h, Column(w, input, at)) == h
  {}

  lemma {:induction false} TailSuffix(w: Width, input: seq<Byte>)
    ensures |Tail(w, input)| <= |input| && Tail(w, input) == input[|input| - |Tail(w, input)|..]
    decreases |input|
  {
    if |input| >= w.Stripe() { TailSuffix(w, input[w.Stripe()..]); }
  }

  /** Seed or lanes, then the length, then the bytes behind the whole stripes. */
  lemma HashTrace(w: Width, m: Mixing, seed: nat, input: seq<Byte>)
    requires SpellsTail(m)
    ensures var n := w.Stripe();
            var h := if |input| < n then seed + w.Prime5() else m.converge(Rounds(w, m, Start(w, seed), input));
            Hash(w, m, seed, input) == m.avalanche(Spell((h + |input|) % w.Modulus(), input[|input| - |input| % n..]))
  {
    hide Rounds, Spell, RunOps, LoopOps, Tail, Start, Width.Stripe, Width.Modulus, Width.Prime5;
    var h := if |input| >= w.Stripe() then m.converge(Rounds(w, m, Start(w, seed), input)) else seed + w.Prime5();
    TailSuffix(w, input);
    TailLength(w, input);
    TailReaches(w, m, (h + |input|) % w.Modulus(), Tail(w, input));
  }

  lemma ShortTrace(w: Width, m: Mixing, seed: nat, input: seq<Byte>)
    requires SpellsTail(m) && |input| < w.Stripe()
    ensures Hash(w, m, seed, input) == m.avalanche(Spell((seed + w.Prime5() + |input|) % w.Modulus(), input))
  {
    hide Hash, Spell, Rounds, Start, Width.Stripe, Width.Modulus, Width.Prime5;
    HashTrace(w, m, seed, input);
    SmallMod(|input|, w.Stripe());
    assert input[0..] == input;
  }

  /** An input shorter than a stripe. */
  lemma ShortHash(w: Width, m: Mixing, seed: nat, input: seq<Byte>)
    requires SpellsTail(m) && |input| < if w.W32? then 16 else 32
    ensures var modulus := if w.W32? then 0x1_0000_0000 else 0x1_0000_0000_0000_0000;
            var prime5 := if w.W32? then 0x165667B1 else 0x27D4EB2F165667C5;
            Hash(w, m, seed, input) == m.avalanche(Spell((seed + prime5 + |input|) % modulus, input))
  {
    hide Hash, Spell, SpellsTail;
    ShortTrace(w, m, seed, input);
  }

  // ------------------------------------------------------------------
  // One-shot
  // ------------------------------------------------------------------

  method ConsumeWhole(w: Width, m: Mixing, start: Lanes, input: seq<Byte>, from: nat) returns (v: Lanes, p: nat)
    requires from <= |input|
    ensures v == Rounds(w, m, start, input[from..])
    ensures from <= p <= |input| && input[p..] == Tail(w, input[from..])
  {
    v, p := start, from;
    while p + w.Stripe() <= |input|
      invariant from <= p <= |input|
      invariant Rounds(w, m, start, input[from..]) == Rounds(w, m, v, input[p..])
      invariant Tail(w, input[from..]) == Tail(w, input[p..])
    {
      ghost var rest := input[p..];
      v := Round4(w, m, v, input[p..p + w.Stripe()]);
      assert rest[..w.Stripe()] == input[p..p + w.Stripe()];
      p := p + w.Stripe();
      assert rest[w.Stripe()..] == input[p..];
    }
  }

  method OneShot(w: Width, m: Mixing, seed: nat, input: seq<Byte>) returns (h: nat)
    ensures h == Hash(w, m, seed, input)
  {
    var p := 0;
    assert input[0..] == input;
    if |input| >= w.Stripe() {
      var v;
      v, p := ConsumeWhole(w, m, Start(w, seed), input, 0);
      h := m.converge(v);
    } else {
      h := seed + w.Prime5();
    }
    h := Finalize(w, m, (h + |input|) % w.Modulus(), input[p..]);
  }

  // ------------------------------------------------------------------
  // Streaming
  // ------------------------------------------------------------------

  /** XXH32_state_t and XXH64_state_t; largeLen is only kept for the 32-bit width. */
  class State {
    const w: Width
    const m: Mixing
    const mem: array<Byte>
    var totalLen: nat
    var largeLen: bool
    var v: Lanes
    var memsize: nat
    ghost var seed: nat
    ghost var fed: seq<Byte>

    ghost predicate Valid()
      reads this, mem
    {
      && mem.Length == w.Stripe() && memsize < w.Stripe()
      && totalLen == |fed| % w.Modulus()
      && (w.W32? ==> (largeLen <==> w.Stripe() <= |fed|))
      && v == Rounds(w, m, Start(w, seed), fed)
      && mem[..memsize] == Tail(w, fed)
    }

    constructor (w: Width, m: Mixing, seed: nat)
      ensures Valid() && this.w == w && this.m == m && fed == [] && this.seed == seed && fresh(mem)
    {
      this.w, this.m := w, m;
      mem := new Byte[w.Stripe()];
      totalLen, largeLen, v, memsize := 0, false, Start(w, seed), 0;
      this.seed, fed := seed, [];
    }

    method Update(input: Option<seq<Byte>>) returns (ok: bool)
      requires Valid()
      modifies this, mem
      ensures Valid() && seed == old(seed)
      ensures memsize == |fed| % w.Stripe()
      ensures ok <==> input.Some?
      ensures fed == if ok then old(fed) + input.value else old(fed)
    {
      hide Rounds, Tail, Start, Width.Modulus, Width.Stripe;
      if input.None? { TailLength(w, fed); return false; }
      ok := true;
      Count(|input.value|);
      Absorb(input.value);
      TailLength(w, fed);
    }

    /** The length counters; the 32-bit one wraps, so a sticky flag remembers that it has passed 16. */
    method Count(len: nat)
      requires totalLen == |fed| % w.Modulus()
      requires w.W32? ==> (largeLen <==> w.Stripe() <= |fed|)
      modifies this`totalLen, this`largeLen
      ensures totalLen == (|fed| + len) % w.Modulus()
      ensures w.W32? ==> (largeLen <==> w.Stripe() <= |fed| + len)
    {
      hide Width.Modulus;
      WrappedSum(w, |fed|, len);
      totalLen := (totalLen + len % w.Modulus()) % w.Modulus();
      if w.W32? {
        largeLen := largeLen || len >= 16 || totalLen >= 16;
      }
    }

    method Absorb(src: seq<Byte>)
      requires mem.Length == w.Stripe() && memsize < w.Stripe()
      requires v == Rounds(w, m, Start(w, seed), fed) && mem[..memsize] == Tail(w, fed)
      modifies this`v, this`memsize, this`fed, mem
      ensures memsize < w.Stripe() && fed == old(fed) + src
      ensures v == Rounds(w, m, Start(w, seed), fed) && mem[..memsize] == Tail(w, fed)
    {
      hide Rounds, Tail, Round4;
      Feed(w, m, Start(w, seed), fed, src);
      ghost var whole := Tail(w, fed) + src;
      ghost var v0 := v;
      fed := fed + src;
      if memsize + |src| < w.Stripe() {
        CopyInto(mem, memsize, src);
        memsize := memsize + |src|;
        assert mem[..memsize] == whole;
        NoMore(w, m, v, whole);
        return;
      }
      var p := 0;
      if memsize > 0 {
        p := w.Stripe() - memsize;
        CopyInto(mem, memsize, src[..p]);
        v := Round4(w, m, v, mem[..]);
        memsize := 0;
        OneMore(w, m, v0, whole);
        assert mem[..] == whole[..w.Stripe()] && src[p..] == whole[w.Stripe()..];
      } else {
        assert src[p..] == whole;
      }
      assert Rounds(w, m, v, src[p..]) == Rounds(w, m, v0, whole) && Tail(w, src[p..]) == Tail(w, whole);
      v, p := ConsumeWhole(w, m, v, src, p);
      if p < |src| {
        CopyInto(mem, 0, src[p..]);
        memsize := |src| - p;
      }
      assert mem[..memsize] == src[p..];
    }

    method Digest() returns (h: nat)
      requires Valid() && (w.W64? ==> |fed| < TWO64)
      ensures h == Hash(w, m, seed, fed)
    {
      hide Finalize, Tail, Rounds, Start;
      SeedLane(w, seed);
      if w.W64? { SmallMod(|fed|, TWO64); }
      if |fed| < w.Stripe() { NoMore(w, m, Start(w, seed), fed); }
      var long := if w.W32? then largeLen else totalLen >= 32;
      h := if long then m.converge(v) else v.v3 + w.Prime5();
      // XXH64 takes the tail length from the total, XXH32 from memsize
      var n := if w.W32? then memsize else totalLen % 32;
      assert n == memsize by { TailLength(w, fed); }
      assert (h + totalLen) % w.Modulus() == (h + |fed|) % w.Modulus() by { ModAdd(|fed|, h, w.Modulus()); }
      h := Finalize(w, m, (h + totalLen) % w.Modulus(), mem[..n]);
    }
  }

  lemma WrappedSum(w: Width, a: nat, b: nat)
    ensures (a % w.Modulus() + b % w.Modulus()) % w.Modulus() == (a + b) % w.Modulus()
    ensures a + b < w.Modulus() ==> (a + b) % w.Modulus() == a + b
    ensures 32 < w.Modulus()
  {
    ModAdd(a, b % w.Modulus(), w.Modulus());
    ModAdd(b, a, w.Modulus());
    if a + b < w.Modulus() { SmallMod(a + b, w.Modulus()); }
  }

  lemma SmallMod(a: nat, b: nat)
    requires a < b
    ensures a % b == a
  {}

  /** Any split of an input into updates digests to its one-shot hash. */
  method HashChunks(w: Width, m: Mixing, seed: nat, chunks: seq<seq<Byte>>) returns (h: nat)
    requires w.W64? ==> |Flatten(chunks)| < TWO64
    ensures h == Hash(w, m, seed, Flatten(chunks))
  {
    var state := new State(w, m, seed);
    for i := 0 to |chunks|
      invariant fresh(state) && fresh(state.mem) && state.Valid() && state.w == w && state.m == m
      invariant state.seed == seed && state.fed == Flatten(chunks[..i])
    {
      var ok := state.Update(Some(chunks[i]));
      assert chunks[..i + 1][..i] == chunks[..i];
    }
    assert chunks[..|chunks|] == chunks;
    h := state.Digest();
  }
}
