/**
 * XXH3 (include/hash/xxhash.h): the long one-shot hash, and the streaming
 * state that must reproduce it from arbitrary chunks.
 *
 * The mixing functions are parameters, so every result holds for all of them.
 */
module Xxh3 {
  import opened Bytes
  import opened Arith

  const STRIPE_LEN: nat := 64
  const CONSUME_RATE: nat := 8
  const SECRET_SIZE_MIN: nat := 136
  const SECRET_DEFAULT_SIZE: nat := 192
  const BUFFER_SIZE: nat := 256
  const BUFFER_STRIPES: nat := 4
  const MIDSIZE_MAX: nat := 240
  const LASTACC_START: nat := 7
  const MERGEACCS_START: nat := 11
  const PRIME64_1: nat := 0x9E3779B185EBCA87
  const PRIME64_2: nat := 0xC2B2AE3D27D4EB4F

  type Acc = seq<nat>
  datatype Hash128 = Hash128(low: nat, high: nat)

  /** The value computations of the algorithm, and the built-in secret. */
  datatype Mixing = Mixing(
    initAcc: Acc,
    acc512: (Acc, seq<Byte>, seq<Byte>) -> Acc,
    scramble: (Acc, seq<Byte>) -> Acc,
    merge: (Acc, seq<Byte>, nat) -> nat,
    short64: (seq<Byte>, seq<Byte>, nat) -> nat,
    short128: (seq<Byte>, seq<Byte>, nat) -> Hash128,
    kSecret: seq<Byte>,
    customSecret: nat -> seq<Byte>)
  {
    ghost predicate Sized() {
      && |kSecret| == SECRET_DEFAULT_SIZE
      && forall seed :: |customSecret(seed)| == SECRET_DEFAULT_SIZE
    }
  }

  type Secret = s: seq<Byte> | SECRET_SIZE_MIN <= |s| witness seq(SECRET_SIZE_MIN, _ => 0 as Byte)

  function PerBlock(secret: Secret): (n: nat)
    ensures 9 <= n && CONSUME_RATE * n + STRIPE_LEN <= |secret|
  {
    (|secret| - STRIPE_LEN) / CONSUME_RATE
  }

  function StripeAt(input: seq<Byte>, i: nat): (s: seq<Byte>)
    requires STRIPE_LEN * (i + 1) <= |input|
    ensures |s| == STRIPE_LEN
  {
    input[STRIPE_LEN * i..STRIPE_LEN * (i + 1)]
  }

  function SecretAt(secret: Secret, pos: nat): (s: seq<Byte>)
    requires pos < PerBlock(secret)
    ensures |s| == STRIPE_LEN
  {
    secret[CONSUME_RATE * pos..CONSUME_RATE * pos + STRIPE_LEN]
  }

  // ------------------------------------------------------------------
  // Reference: one stripe after the other, no notion of block or buffer
  // ------------------------------------------------------------------

  /** One stripe at position `pos` of its block; the last of a block scrambles. */
  function AbsorbOne(m: Mixing, secret: Secret, acc: Acc, stripe: seq<Byte>, pos: nat): Acc
    requires pos < PerBlock(secret)
  {
    var a := m.acc512(acc, stripe, SecretAt(secret, pos));
    if pos + 1 == PerBlock(secret) then m.scramble(a, secret[|secret| - STRIPE_LEN..]) else a
  }

  /** The position reached `n` stripes after `pos` in blocks of `k` stripes. */
  function Advance(pos: nat, n: nat, k: nat): (r: nat)
    requires pos < k
    ensures r < k
  {
    if n == 0 then pos else var p := Advance(pos, n - 1, k) + 1; if p == k then 0 else p
  }

  /** The first `n` stripes of `input`, the first of them at block position `pos`. */
  function Absorb(m: Mixing, secret: Secret, acc: Acc, input: seq<Byte>, pos: nat, n: nat): Acc
    requires STRIPE_LEN * n <= |input| && pos < PerBlock(secret)
  {
    if n == 0 then acc
    else AbsorbOne(m, secret, Absorb(m, secret, acc, input, pos, n - 1), StripeAt(input, n - 1),
                   Advance(pos, n - 1, PerBlock(secret)))
  }

  /** The number of whole stripes before the last byte. */
  function WholeStripes(len: nat): (n: nat)
    ensures 0 < len ==> STRIPE_LEN * n < len
  {
    if len == 0 then 0 else (len - 1) / STRIPE_LEN
  }

  /** All whole stripes before the last byte, then the last 64 bytes with their own secret. */
  function LongAcc(m: Mixing, secret: Secret, input: seq<Byte>): Acc
    requires STRIPE_LEN < |input|
  {
    var a := Absorb(m, secret, m.initAcc, input, 0, WholeStripes(|input|));
    m.acc512(a, input[|input| - STRIPE_LEN..], LastSecret(secret))
  }

  function LastSecret(secret: Secret): seq<Byte> {
    secret[|secret| - STRIPE_LEN - LASTACC_START..|secret| - LASTACC_START]
  }

  function Merge64(m: Mixing, secret: Secret, acc: Acc, len: nat): nat {
    m.merge(acc, secret[MERGEACCS_START..MERGEACCS_START + STRIPE_LEN], len * PRIME64_1 % TWO64)
  }

  function Merge128(m: Mixing, secret: Secret, acc: Acc, len: nat): Hash128 {
    Hash128(Merge64(m, secret, acc, len),
            m.merge(acc, secret[|secret| - STRIPE_LEN - MERGEACCS_START..|secret| - MERGEACCS_START],
                    TWO64 - 1 - len * PRIME64_2 % TWO64))
  }

  // ------------------------------------------------------------------
  // Lemmas about the reference
  // ------------------------------------------------------------------

  lemma {:induction false} AbsorbPrefix(m: Mixing, secret: Secret, acc: Acc, a: seq<Byte>, b: seq<Byte>, pos: nat, n: nat)
    requires STRIPE_LEN * n <= |a| && STRIPE_LEN * n <= |b|
    requires a[..STRIPE_LEN * n] == b[..STRIPE_LEN * n] && pos < PerBlock(secret)
    ensures Absorb(m, secret, acc, a, pos, n) == Absorb(m, secret, acc, b, pos, n)
  {
    if n > 0 {
      var k := STRIPE_LEN * n;
      assert a[..k][..k - STRIPE_LEN] == b[..k][..k - STRIPE_LEN];
      assert a[..k][k - STRIPE_LEN..] == b[..k][k - STRIPE_LEN..];
      AbsorbPrefix(m, secret, acc, a, b, pos, n - 1);
    }
  }

  lemma {:induction false} AdvanceSplit(pos: nat, i: nat, n: nat, k: nat)
    requires pos < k
    ensures Advance(pos, i + n, k) == Advance(Advance(pos, i, k), n, k)
  {
    if n > 0 { AdvanceSplit(pos, i, n - 1, k); }
  }

  lemma {:induction false} AdvanceInBlock(pos: nat, n: nat, k: nat)
    requires pos < k && pos + n <= k
    ensures Advance(pos, n, k) == if pos + n < k then pos + n else 0
  {
    if n > 0 { AdvanceInBlock(pos, n - 1, k); }
  }

  /** Position and scramble follow the stripe's index: stripe `n` uses secret offset 8 * (n mod k). */
  lemma {:induction false} AdvanceIsMod(n: nat, k: nat)
    requires 0 < k
    ensures Advance(0, n, k) == n % k
  {
    if n == 0 {
      DivModUnique(0, k, 0, 0);
    } else {
      AdvanceIsMod(n - 1, k);
      ModAddCases(n - 1, 1, k);
    }
  }

  /** Absorbing can be cut at any stripe, resuming at the block position reached. */
  lemma {:induction false} AbsorbSplit(m: Mixing, secret: Secret, acc: Acc, input: seq<Byte>, pos: nat, i: nat, n: nat)
    requires STRIPE_LEN * (i + n) <= |input| && pos < PerBlock(secret)
    ensures Absorb(m, secret, acc, input, pos, i + n)
         == Absorb(m, secret, Absorb(m, secret, acc, input, pos, i), input[STRIPE_LEN * i..],
                   Advance(pos, i, PerBlock(secret)), n)
  {
    if n > 0 {
      AbsorbSplit(m, secret, acc, input, pos, i, n - 1);
      assert StripeAt(input[STRIPE_LEN * i..], n - 1) == StripeAt(input, i + n - 1);
      AdvanceSplit(pos, i, n - 1, PerBlock(secret));
    }
  }

  // ------------------------------------------------------------------
  // The source's own loops: accumulate, consumeStripes, internal_loop
  // ------------------------------------------------------------------

  /** `n` stripes from position `pos` of one block, without any scramble. */
  function AccumulateFrom(m: Mixing, secret: Secret, acc: Acc, input: seq<Byte>, pos: nat, n: nat): Acc
    requires STRIPE_LEN * n <= |input| && pos + n <= PerBlock(secret)
  {
    if n == 0 then acc
    else m.acc512(AccumulateFrom(m, secret, acc, input, pos, n - 1), StripeAt(input, n - 1),
                  SecretAt(secret, pos + n - 1))
  }

  /** Inside one block the plain accumulation is the reference, plus a scramble at the block's end. */
  lemma {:induction false} AccumulateIsAbsorb(m: Mixing, secret: Secret, acc: Acc, input: seq<Byte>, pos: nat, n: nat)
    requires STRIPE_LEN * n <= |input| && pos < PerBlock(secret) && pos + n <= PerBlock(secret)
    ensures pos + n < PerBlock(secret) || n == 0 ==>
              Absorb(m, secret, acc, input, pos, n) == AccumulateFrom(m, secret, acc, input, pos, n)
    ensures pos + n == PerBlock(secret) && n > 0 ==>
              (Absorb(m, secret, acc, input, pos, n)
               == m.scramble(AccumulateFrom(m, secret, acc, input, pos, n), secret[|secret| - STRIPE_LEN..]))
  {
    if n > 0 {
      AccumulateIsAbsorb(m, secret, acc, input, pos, n - 1);
      AdvanceInBlock(pos, n - 1, PerBlock(secret));
    }
  }

  method Accumulate(m: Mixing, acc: Acc, input: seq<Byte>, secret: Secret, pos: nat, nbStripes: nat) returns (r: Acc)
    requires STRIPE_LEN * nbStripes <= |input| && pos + nbStripes <= PerBlock(secret)
    ensures r == AccumulateFrom(m, secret, acc, input, pos, nbStripes)
  {
    r := acc;
    for n := 0 to nbStripes
      invariant r == AccumulateFrom(m, secret, acc, input, pos, n)
    {
      r := m.acc512(r, StripeAt(input, n), SecretAt(secret, pos + n));
    }
  }

  /** At most one block boundary is crossed, which the source asserts as nbStripes <= nbStripesPerBlock. */
  method ConsumeStripes(m: Mixing, acc: Acc, soFar: nat, input: seq<Byte>, nbStripes: nat, secret: Secret)
    returns (r: Acc, soFar': nat)
    requires nbStripes <= PerBlock(secret) && soFar < PerBlock(secret)
    requires STRIPE_LEN * nbStripes <= |input|
    ensures r == Absorb(m, secret, acc, input, soFar, nbStripes)
    ensures soFar' == Advance(soFar, nbStripes, PerBlock(secret))
  {
    var perBlock := PerBlock(secret);
    if perBlock - soFar <= nbStripes {
      var toEnd := perBlock - soFar;
      var after := nbStripes - toEnd;
      r := Accumulate(m, acc, input, secret, soFar, toEnd);
      AccumulateIsAbsorb(m, secret, acc, input, soFar, toEnd);
      r := m.scramble(r, secret[|secret| - STRIPE_LEN..]);
      AbsorbSplit(m, secret, acc, input, soFar, toEnd, after);
      AdvanceInBlock(soFar, toEnd, perBlock);
      AccumulateIsAbsorb(m, secret, r, input[STRIPE_LEN * toEnd..], 0, after);
      r := Accumulate(m, r, input[STRIPE_LEN * toEnd..], secret, 0, after);
      AdvanceSplit(soFar, toEnd, after, perBlock);
      AdvanceInBlock(0, after, perBlock);
      soFar' := after;
    } else {
      r := Accumulate(m, acc, input, secret, soFar, nbStripes);
      AccumulateIsAbsorb(m, secret, acc, input, soFar, nbStripes);
      AdvanceInBlock(soFar, nbStripes, perBlock);
      soFar' := soFar + nbStripes;
    }
  }

  /** The blocks before the last byte, each with its scramble, then the partial block and the last stripe. */
  method HashLongLoop(m: Mixing, input: seq<Byte>, secret: Secret) returns (acc: Acc)
    requires STRIPE_LEN < |input|
    ensures acc == LongAcc(m, secret, input)
  {
    hide Absorb, Advance, PerBlock, WholeStripes;
    var perBlock := PerBlock(secret);
    var blockLen := STRIPE_LEN * perBlock;
    var nbBlocks := (|input| - 1) / blockLen;
    LastBlockStripes(|input|, perBlock);
    acc := m.initAcc;
    ghost var done: nat := 0;
    NothingAbsorbed(m, secret, acc, input);
    for n := 0 to nbBlocks
      invariant done == n * perBlock && Advance(0, done, perBlock) == 0
      invariant STRIPE_LEN * done <= |input|
      invariant acc == Absorb(m, secret, m.initAcc, input, 0, done)
    {
      BlockStart(|input|, perBlock, n);
      acc := Accumulate(m, acc, input[n * blockLen..], secret, 0, perBlock);
      acc := m.scramble(acc, secret[|secret| - STRIPE_LEN..]);
      AbsorbBlock(m, secret, input, done);
      done := done + perBlock;
    }
    var nbStripes := (|input| - 1 - blockLen * nbBlocks) / STRIPE_LEN;
    acc := Accumulate(m, acc, input[nbBlocks * blockLen..], secret, 0, nbStripes);
    AbsorbTail(m, secret, input, done, nbStripes);
    acc := m.acc512(acc, input[|input| - STRIPE_LEN..], LastSecret(secret));
  }

  lemma NothingAbsorbed(m: Mixing, secret: Secret, acc: Acc, input: seq<Byte>)
    ensures Absorb(m, secret, acc, input, 0, 0) == acc && Advance(0, 0, PerBlock(secret)) == 0
  {}

  lemma BlockStart(len: nat, perBlock: nat, n: nat)
    requires 0 < len && 0 < perBlock
    requires n < (len - 1) / (STRIPE_LEN * perBlock)
    ensures 0 <= n * perBlock && (n + 1) * perBlock == n * perBlock + perBlock
    ensures n * (STRIPE_LEN * perBlock) == STRIPE_LEN * (n * perBlock)
    ensures STRIPE_LEN * (n * perBlock + perBlock) <= len
  {
    var blockLen := STRIPE_LEN * perBlock;
    MulLe(n + 1, (len - 1) / blockLen, blockLen);
    MulLe(0, n, perBlock);
    assert n * blockLen == STRIPE_LEN * (n * perBlock);
    assert (n + 1) * blockLen == n * blockLen + blockLen;
  }

  lemma AbsorbBlock(m: Mixing, secret: Secret, input: seq<Byte>, i: nat)
    requires Advance(0, i, PerBlock(secret)) == 0
    requires STRIPE_LEN * (i + PerBlock(secret)) <= |input|
    ensures Advance(0, i + PerBlock(secret), PerBlock(secret)) == 0
    ensures Absorb(m, secret, m.initAcc, input, 0, i + PerBlock(secret))
         == m.scramble(AccumulateFrom(m, secret, Absorb(m, secret, m.initAcc, input, 0, i),
                                      input[STRIPE_LEN * i..], 0, PerBlock(secret)),
                       secret[|secret| - STRIPE_LEN..])
  {
    var k := PerBlock(secret);
    AbsorbSplit(m, secret, m.initAcc, input, 0, i, k);
    AdvanceSplit(0, i, k, k);
    AdvanceInBlock(0, k, k);
    AccumulateIsAbsorb(m, secret, Absorb(m, secret, m.initAcc, input, 0, i), input[STRIPE_LEN * i..], 0, k);
  }

  lemma AbsorbTail(m: Mixing, secret: Secret, input: seq<Byte>, i: nat, n: nat)
    requires Advance(0, i, PerBlock(secret)) == 0 && n < PerBlock(secret)
    requires STRIPE_LEN * (i + n) <= |input|
    ensures Absorb(m, secret, m.initAcc, input, 0, i + n)
         == AccumulateFrom(m, secret, Absorb(m, secret, m.initAcc, input, 0, i), input[STRIPE_LEN * i..], 0, n)
  {
    AbsorbSplit(m, secret, m.initAcc, input, 0, i, n);
    AccumulateIsAbsorb(m, secret, Absorb(m, secret, m.initAcc, input, 0, i), input[STRIPE_LEN * i..], 0, n);
  }

  /** Dividing by the block length counts whole blocks of stripes. */
  lemma BlockDivision(x: nat, perBlock: nat)
    requires 0 < perBlock
    ensures var q := x / (STRIPE_LEN * perBlock);
            && 0 <= q * perBlock
            && STRIPE_LEN * perBlock * q == STRIPE_LEN * (q * perBlock)
            && q * (STRIPE_LEN * perBlock) == STRIPE_LEN * (q * perBlock)
            && STRIPE_LEN * (q * perBlock) <= x < STRIPE_LEN * (q * perBlock) + STRIPE_LEN * perBlock
  {
    var blockLen := STRIPE_LEN * perBlock;
    DivFacts(x, blockLen);
    BlockProduct(x / blockLen, perBlock);
  }

  lemma BlockProduct(q: nat, perBlock: nat)
    ensures 0 <= q * perBlock
    ensures STRIPE_LEN * perBlock * q == STRIPE_LEN * (q * perBlock) == q * (STRIPE_LEN * perBlock)
  {
    MulNat(q, perBlock);
  }

  /** Counting stripes block by block loses none before the last byte. */
  lemma LastBlockStripes(len: nat, perBlock: nat)
    requires 0 < len && 0 < perBlock
    ensures var blocks := (len - 1) / (STRIPE_LEN * perBlock);
            && 0 <= len - 1 - STRIPE_LEN * perBlock * blocks
            && var rest := (len - 1 - STRIPE_LEN * perBlock * blocks) / STRIPE_LEN;
            && 0 <= blocks * perBlock && rest < perBlock
            && blocks * (STRIPE_LEN * perBlock) == STRIPE_LEN * (blocks * perBlock)
            && STRIPE_LEN * (blocks * perBlock + rest) <= len - 1
            && WholeStripes(len) == blocks * perBlock + rest
  {
    BlockDivision(len - 1, perBlock);
    var done := (len - 1) / (STRIPE_LEN * perBlock) * perBlock;
    assert (len - 1 - STRIPE_LEN * done) / STRIPE_LEN == (len - 1) / STRIPE_LEN - done;
  }

  // ------------------------------------------------------------------
  // Which bytes meet which: what mixers leave that only record
  // ------------------------------------------------------------------

  /** Mixing that appends byte `i` of the stripe and of its key, and marks a scramble with that of its key. */
  ghost predicate Records(m: Mixing, i: nat)
    requires i < STRIPE_LEN
  {
    && m.initAcc == []
    && (forall a: Acc, s: seq<Byte>, k: seq<Byte> ::
         |s| == |k| == STRIPE_LEN ==> m.acc512(a, s, k) == a + [256 * s[i] as nat + k[i] as nat])
    && (forall a: Acc, k: seq<Byte> :: |k| == STRIPE_LEN ==> m.scramble(a, k) == a + [65536 + k[i] as nat])
  }

  /** There is such a mixing. */
  ghost function Recorder(i: nat): (m: Mixing)
    requires i < STRIPE_LEN
    ensures Records(m, i)
  {
    var zeros := seq(SECRET_DEFAULT_SIZE, _ => 0 as Byte);
    Mixing([], (a: Acc, s: seq<Byte>, k: seq<Byte>) => if i < |s| && i < |k| then a + [256 * s[i] as nat + k[i] as nat] else a,
           (a: Acc, k: seq<Byte>) => if i < |k| then a + [65536 + k[i] as nat] else a,
           (_, _, _) => 0, (_, _, _) => 0, (_, _, _) => Hash128(0, 0), zeros, _ => zeros)
  }

  lemma AccumulateNext(m: Mixing, secret: Secret, acc: Acc, input: seq<Byte>, pos: nat, n: nat, i: nat)
    requires 64 * (n + 1) <= |input| && pos + n < PerBlock(secret) && i < 64 && Records(m, i)
    ensures AccumulateFrom(m, secret, acc, input, pos, n + 1)
         == AccumulateFrom(m, secret, acc, input, pos, n) + [256 * input[64 * n + i] as nat + secret[8 * (pos + n) + i] as nat]
  {
    var a, s, c := AccumulateFrom(m, secret, acc, input, pos, n), StripeAt(input, n), SecretAt(secret, pos + n);
    assert s[i] == input[64 * n + i] && c[i] == secret[8 * (pos + n) + i];
    assert m.acc512(a, s, c) == a + [256 * s[i] as nat + c[i] as nat];
  }

  lemma NothingAccumulated(m: Mixing, secret: Secret, acc: Acc, input: seq<Byte>, pos: nat)
    requires pos <= PerBlock(secret)
    ensures AccumulateFrom(m, secret, acc, input, pos, 0) == acc
  {}

  /** Stripe `j` of a run meets the secret from 8 * (pos + j) on. */
  lemma {:induction false} AccumulateTrace(m: Mixing, secret: Secret, acc: Acc, input: seq<Byte>, pos: nat, n: nat, i: nat, j: nat)
    requires 64 * n <= |input| && pos + n <= PerBlock(secret) && i < 64 && Records(m, i)
    ensures var t := AccumulateFrom(m, secret, acc, input, pos, n);
            && |t| == |acc| + n && acc <= t
            && (j < n ==> t[|acc| + j] == 256 * input[64 * j + i] as nat + secret[8 * (pos + j) + i] as nat)
  {
    hide AccumulateFrom, Records, PerBlock;
    if n == 0 {
      NothingAccumulated(m, secret, acc, input, pos);
    } else {
      AccumulateTrace(m, secret, acc, input, pos, n - 1, i, j);
      AccumulateNext(m, secret, acc, input, pos, n - 1, i);
    }
  }

  /** What stripe `n` adds: byte pair, and a mark if it is the last of its block. */
  lemma AbsorbNext(m: Mixing, secret: Secret, input: seq<Byte>, n: nat, i: nat)
    requires 64 * (n + 1) <= |input| && i < 64 && Records(m, i)
    ensures var k := PerBlock(secret);
            && 0 <= n % k < k
            && (Absorb(m, secret, [], input, 0, n + 1)
                == Absorb(m, secret, [], input, 0, n) + [256 * input[64 * n + i] as nat + secret[8 * (n % k) + i] as nat]
                   + if (n + 1) % k == 0 then [65536 + secret[|secret| - 64 + i] as nat] else [])
  {
    var k := PerBlock(secret);
    AdvanceIsMod(n, k);
    DivModNext(n, k);
    var a, s, c := Absorb(m, secret, [], input, 0, n), StripeAt(input, n), SecretAt(secret, n % k);
    assert s[i] == input[64 * n + i] && c[i] == secret[8 * (n % k) + i];
    assert m.acc512(a, s, c) == a + [256 * s[i] as nat + c[i] as nat];
  }

  lemma {:induction false} AbsorbLength(m: Mixing, secret: Secret, input: seq<Byte>, n: nat, i: nat)
    requires STRIPE_LEN * n <= |input| && i < STRIPE_LEN && Records(m, i)
    ensures |Absorb(m, secret, [], input, 0, n)| == n + n / PerBlock(secret)
  {
    hide Absorb, Records, PerBlock;
    if n == 0 {
      NothingAbsorbed(m, secret, [], input);
      DivModUnique(0, PerBlock(secret), 0, 0);
    } else {
      AbsorbLength(m, secret, input, n - 1, i);
      AbsorbNext(m, secret, input, n - 1, i);
      DivModNext(n - 1, PerBlock(secret));
    }
  }

  /** Stripe `q` meets the secret from 8 * (q mod k) on, and every k-th stripe is followed by a scramble. */
  lemma {:induction false} AbsorbTrace(m: Mixing, secret: Secret, input: seq<Byte>, n: nat, i: nat, q: nat)
    requires 64 * n <= |input| && i < 64 && Records(m, i) && q < n
    ensures var t, k := Absorb(m, secret, [], input, 0, n), PerBlock(secret);
            && 0 <= q / k && 0 <= q % k < k && q + q / k < |t|
            && t[q + q / k] == 256 * input[64 * q + i] as nat + secret[8 * (q % k) + i] as nat
            && ((q + 1) % k == 0 ==> q + q / k + 1 < |t| && t[q + q / k + 1] == 65536 + secret[|secret| - 64 + i] as nat)
  {
    hide Absorb, Records, PerBlock;
    AbsorbNext(m, secret, input, n - 1, i);
    DivNat(q, PerBlock(secret));
    if q < n - 1 {
      AbsorbTrace(m, secret, input, n - 1, i, q);
    } else {
      AbsorbLength(m, secret, input, n - 1, i);
    }
  }

  /**
   * The long hash: with k stripes a block, all whole stripes before the last byte meet the secret at offsets 8 apart,
   * every k-th is followed by a scramble with the secret's last 64 bytes, and the input's last 64 bytes come at the end
   * with the 64 that start 71 before the end of the secret.
   */
  lemma LongTrace(m: Mixing, secret: Secret, input: seq<Byte>, i: nat, q: nat)
    requires 64 < |input| && i < 64 && Records(m, i)
    ensures var t, k, n := LongAcc(m, secret, input), (|secret| - 64) / 8, (|input| - 1) / 64;
            && |t| == n + n / k + 1
            && t[|t| - 1] == 256 * input[|input| - 64 + i] as nat + secret[|secret| - 71 + i] as nat
            && (q < n ==>
                 && 0 <= q / k && 0 <= q % k < k && q + q / k < |t|
                 && t[q + q / k] == 256 * input[64 * q + i] as nat + secret[8 * (q % k) + i] as nat
                 && ((q + 1) % k == 0 ==> q + q / k + 1 < |t| && t[q + q / k + 1] == 65536 + secret[|secret| - 64 + i] as nat))
  {
    hide Absorb;
    var n := WholeStripes(|input|);
    AbsorbLength(m, secret, input, n, i);
    if q < n { AbsorbTrace(m, secret, input, n, i, q); }
  }

  /** The merges: a window of the secret that starts at 11, or ends 11 before its end, and the length times a prime. */
  lemma MergeTrace(m: Mixing, secret: Secret, acc: Acc, len: nat, i: nat)
    requires i < 64
    requires forall a: Acc, k: seq<Byte>, start: nat :: |k| == 64 ==> m.merge(a, k, start) == TWO64 * k[i] as nat + start
    ensures Merge64(m, secret, acc, len) == TWO64 * secret[11 + i] as nat + len * 0x9E3779B185EBCA87 % TWO64
    ensures Merge128(m, secret, acc, len).low == Merge64(m, secret, acc, len)
    ensures var high := Merge128(m, secret, acc, len).high;
            high / TWO64 == secret[|secret| - 75 + i] as nat && (high + len * 0xC2B2AE3D27D4EB4F + 1) % TWO64 == 0
  {
    Complement(secret[|secret| - 75 + i] as nat, len * 0xC2B2AE3D27D4EB4F);
  }

  lemma Complement(b: nat, x: nat)
    ensures var h := TWO64 * b + (TWO64 - 1 - x % TWO64); h / TWO64 == b && (h + x + 1) % TWO64 == 0
  {}

  // ------------------------------------------------------------------
  // One-shot hashes
  // ------------------------------------------------------------------

  /** The three ways to set up a hash, as documented for the reset functions. */
  datatype Config = Default | WithSecret(secret: Secret) | WithSeed(seed: nat)

  function Seed(cfg: Config): nat { if cfg.WithSeed? then cfg.seed else 0 }

  /** Short inputs mix the seed with the built-in secret unless a secret was given. */
  function ShortSecret(m: Mixing, cfg: Config): seq<Byte> {
    if cfg.WithSecret? then cfg.secret else m.kSecret
  }

  ghost function LongSecret(m: Mixing, cfg: Config): (s: Secret)
    requires m.Sized()
  {
    if cfg.WithSeed? && cfg.seed != 0 then m.customSecret(cfg.seed) else ShortSecret(m, cfg)
  }

  ghost function OneShot64(m: Mixing, cfg: Config, input: seq<Byte>): nat
    requires m.Sized()
  {
    if |input| <= MIDSIZE_MAX then m.short64(input, ShortSecret(m, cfg), Seed(cfg))
    else Merge64(m, LongSecret(m, cfg), LongAcc(m, LongSecret(m, cfg), input), |input|)
  }

  ghost function OneShot128(m: Mixing, cfg: Config, input: seq<Byte>): Hash128
    requires m.Sized()
  {
    if |input| <= MIDSIZE_MAX then m.short128(input, ShortSecret(m, cfg), Seed(cfg))
    else Merge128(m, LongSecret(m, cfg), LongAcc(m, LongSecret(m, cfg), input), |input|)
  }

  /** Seed 0 and the built-in secret are the default; other seeds key short inputs by value, long ones by a derived secret. */
  lemma Configurations(m: Mixing, input: seq<Byte>, seed: nat)
    requires m.Sized()
    ensures OneShot64(m, WithSeed(0), input) == OneShot64(m, Default, input) == OneShot64(m, WithSecret(m.kSecret), input)
    ensures OneShot128(m, WithSeed(0), input) == OneShot128(m, Default, input) == OneShot128(m, WithSecret(m.kSecret), input)
    ensures |input| <= 240 ==>
              && OneShot64(m, WithSeed(seed), input) == m.short64(input, m.kSecret, seed)
              && OneShot128(m, WithSeed(seed), input) == m.short128(input, m.kSecret, seed)
    ensures |input| > 240 && seed != 0 ==>
              && OneShot64(m, WithSeed(seed), input) == OneShot64(m, WithSecret(m.customSecret(seed)), input)
              && OneShot128(m, WithSeed(seed), input) == OneShot128(m, WithSecret(m.customSecret(seed)), input)
  {
    hide LongAcc, Merge64, Merge128;
  }

  /** A given secret keys both; the length that is merged is that of the input. */
  lemma SecretDigest(m: Mixing, secret: Secret, input: seq<Byte>)
    requires m.Sized()
    ensures |input| <= 240 ==>
              && OneShot64(m, WithSecret(secret), input) == m.short64(input, secret, 0)
              && OneShot128(m, WithSecret(secret), input) == m.short128(input, secret, 0)
    ensures |input| > 240 ==>
              && OneShot64(m, WithSecret(secret), input) == Merge64(m, secret, LongAcc(m, secret, input), |input|)
              && OneShot128(m, WithSecret(secret), input) == Merge128(m, secret, LongAcc(m, secret, input), |input|)
  {
    hide LongAcc, Merge64, Merge128;
  }

  method Bits64(m: Mixing, cfg: Config, input: seq<Byte>) returns (h: nat)
    requires m.Sized()
    ensures h == OneShot64(m, cfg, input)
  {
    if |input| <= MIDSIZE_MAX {
      h := m.short64(input, ShortSecret(m, cfg), Seed(cfg));
    } else {
      var secret := if Seed(cfg) != 0 then m.customSecret(Seed(cfg)) else ShortSecret(m, cfg);
      var acc := HashLongLoop(m, input, secret);
      h := Merge64(m, secret, acc, |input|);
    }
  }

  method Bits128(m: Mixing, cfg: Config, input: seq<Byte>) returns (h: Hash128)
    requires m.Sized()
    ensures h == OneShot128(m, cfg, input)
  {
    if |input| <= MIDSIZE_MAX {
      h := m.short128(input, ShortSecret(m, cfg), Seed(cfg));
    } else {
      var secret := if Seed(cfg) != 0 then m.customSecret(Seed(cfg)) else ShortSecret(m, cfg);
      var acc := HashLongLoop(m, input, secret);
      h := Merge128(m, secret, acc, |input|);
    }
  }

  // ------------------------------------------------------------------
  // Streaming
  // ------------------------------------------------------------------

  /** `acc` and `soFar` are what the reference reaches after the first `n` stripes of `fed`. */
  ghost predicate Absorbed(m: Mixing, secret: Secret, fed: seq<Byte>, n: nat, acc: Acc, soFar: nat) {
    && STRIPE_LEN * n <= |fed|
    && acc == Absorb(m, secret, m.initAcc, fed, 0, n)
    && soFar == Advance(0, n, PerBlock(secret))
  }

  lemma AbsorbedExtend(m: Mixing, secret: Secret, fed: seq<Byte>, more: seq<Byte>, n: nat, acc: Acc, soFar: nat)
    requires Absorbed(m, secret, fed, n, acc, soFar)
    ensures Absorbed(m, secret, fed + more, n, acc, soFar)
  {
    assert (fed + more)[..STRIPE_LEN * n] == fed[..STRIPE_LEN * n];
    AbsorbPrefix(m, secret, m.initAcc, fed, fed + more, 0, n);
  }

  lemma AbsorbedStep(m: Mixing, secret: Secret, fed: seq<Byte>, n: nat, acc: Acc, soFar: nat, chunk: seq<Byte>, k: nat)
    requires Absorbed(m, secret, fed, n, acc, soFar)
    requires STRIPE_LEN * (n + k) <= |fed| && STRIPE_LEN * k <= |chunk|
    requires chunk[..STRIPE_LEN * k] == fed[STRIPE_LEN * n..STRIPE_LEN * (n + k)]
    ensures Absorbed(m, secret, fed, n + k,
                     Absorb(m, secret, acc, chunk, soFar, k), Advance(soFar, k, PerBlock(secret)))
  {
    AbsorbSplit(m, secret, m.initAcc, fed, 0, n, k);
    assert fed[STRIPE_LEN * n..][..STRIPE_LEN * k] == chunk[..STRIPE_LEN * k];
    AbsorbPrefix(m, secret, acc, fed[STRIPE_LEN * n..], chunk, soFar, k);
    AdvanceSplit(0, n, k, PerBlock(secret));
  }

  /** Everything before the last `buffered` bytes of `fed` is consumed, and those bytes start the buffer. */
  ghost predicate Buffered(m: Mixing, secret: Secret, fed: seq<Byte>, n: nat, acc: Acc, soFar: nat,
                           buf: seq<Byte>, buffered: nat)
  {
    && Absorbed(m, secret, fed, n, acc, soFar)
    && |buf| == BUFFER_SIZE && buffered <= BUFFER_SIZE && |fed| == STRIPE_LEN * n + buffered
    && buf[..buffered] == fed[STRIPE_LEN * n..]
    && (n > 0 ==> n >= BUFFER_STRIPES && buffered > 0 && Trailing(buf, buffered, fed, STRIPE_LEN * n))
  }

  /** The end of the last consumed stripe, as far as the buffered bytes have not overwritten it. */
  ghost predicate Trailing(buf: seq<Byte>, buffered: nat, fed: seq<Byte>, c: nat)
    requires |buf| == BUFFER_SIZE && STRIPE_LEN <= c <= |fed|
  {
    forall j :: buffered <= j < BUFFER_SIZE && BUFFER_SIZE - STRIPE_LEN <= j ==> buf[j] == fed[c - BUFFER_SIZE + j]
  }

  /** All of `all` before its unread suffix `rest` is consumed, and the buffer ends with its last stripe. */
  ghost predicate Drained(m: Mixing, secret: Secret, all: seq<Byte>, rest: seq<Byte>, n: nat, acc: Acc, soFar: nat,
                          buf: seq<Byte>)
  {
    && Absorbed(m, secret, all, n, acc, soFar)
    && |buf| == BUFFER_SIZE && rest != [] && rest == all[STRIPE_LEN * n..]
    && (n > 0 ==> n >= BUFFER_STRIPES && buf[BUFFER_SIZE - STRIPE_LEN..] == StripeAt(all, n - 1))
  }

  lemma BufferNone(m: Mixing, secret: Secret, buf: seq<Byte>)
    requires |buf| == BUFFER_SIZE
    ensures Buffered(m, secret, [], 0, m.initAcc, 0, buf, 0)
  {}

  lemma BufferMore(m: Mixing, secret: Secret, fed: seq<Byte>, n: nat, acc: Acc, soFar: nat,
                   buf: seq<Byte>, buffered: nat, src: seq<Byte>, buf': seq<Byte>)
    requires Buffered(m, secret, fed, n, acc, soFar, buf, buffered)
    requires buffered + |src| <= BUFFER_SIZE
    requires buf' == buf[..buffered] + src + buf[buffered + |src|..]
    ensures Buffered(m, secret, fed + src, n, acc, soFar, buf', buffered + |src|)
  {
    AbsorbedExtend(m, secret, fed, src, n, acc, soFar);
    assert buf'[..buffered + |src|] == buf[..buffered] + src;
    assert (fed + src)[STRIPE_LEN * n..] == fed[STRIPE_LEN * n..] + src;
  }

  lemma BufferRest(m: Mixing, secret: Secret, all: seq<Byte>, rest: seq<Byte>, n: nat, acc: Acc, soFar: nat,
                   buf: seq<Byte>, buf': seq<Byte>)
    requires Drained(m, secret, all, rest, n, acc, soFar, buf)
    requires |rest| <= BUFFER_SIZE && buf' == rest + buf[|rest|..]
    ensures Buffered(m, secret, all, n, acc, soFar, buf', |rest|)
  {
    if n > 0 {
      forall j | |rest| <= j < BUFFER_SIZE && BUFFER_SIZE - STRIPE_LEN <= j
        ensures buf'[j] == all[STRIPE_LEN * n - BUFFER_SIZE + j]
      {
        var i := j - (BUFFER_SIZE - STRIPE_LEN);
        assert buf[BUFFER_SIZE - STRIPE_LEN..][i] == StripeAt(all, n - 1)[i];
      }
    }
  }

  lemma BufferEmpty(m: Mixing, secret: Secret, fed: seq<Byte>, n: nat, acc: Acc, soFar: nat, buf: seq<Byte>, src: seq<Byte>)
    requires Buffered(m, secret, fed, n, acc, soFar, buf, 0) && src != []
    ensures Drained(m, secret, fed + src, src, n, acc, soFar, buf)
  {
    AbsorbedExtend(m, secret, fed, src, n, acc, soFar);
    assert fed == [] && fed + src == src;
  }

  /** Filling the buffer and consuming it whole leaves the unread suffix of the new input. */
  lemma DrainBuffer(m: Mixing, secret: Secret, fed: seq<Byte>, src: seq<Byte>, n: nat, acc: Acc, soFar: nat,
                    buf: seq<Byte>, buffered: nat, buf': seq<Byte>)
    requires Buffered(m, secret, fed, n, acc, soFar, buf, buffered)
    requires BUFFER_SIZE < buffered + |src|
    requires buf' == buf[..buffered] + src[..BUFFER_SIZE - buffered]
    ensures Drained(m, secret, fed + src, src[BUFFER_SIZE - buffered..], n + BUFFER_STRIPES,
                    Absorb(m, secret, acc, buf', soFar, BUFFER_STRIPES),
                    Advance(soFar, BUFFER_STRIPES, PerBlock(secret)), buf')
  {
    var all := fed + src;
    var c := STRIPE_LEN * n;
    AbsorbedExtend(m, secret, fed, src, n, acc, soFar);
    assert all[c..] == buf[..buffered] + src;
    assert buf' == all[c..][..BUFFER_SIZE] == all[c..c + BUFFER_SIZE];
    AbsorbedStep(m, secret, all, n, acc, soFar, buf', BUFFER_STRIPES);
    assert src[BUFFER_SIZE - buffered..] == all[c..][BUFFER_SIZE..] == all[c + BUFFER_SIZE..];
    assert StripeAt(all, n + BUFFER_STRIPES - 1) == all[c..c + BUFFER_SIZE][BUFFER_SIZE - STRIPE_LEN..];
  }

  lemma SliceBehind(s: seq<Byte>, p: nat, a: nat, b: nat)
    requires a <= b && p + b <= |s|
    ensures s[p..][a..b] == s[p + a..p + b] && s[p..][b..] == s[p + b..]
  {}

  /** Consuming one buffer length straight from the unread suffix. */
  lemma DrainDirect(m: Mixing, secret: Secret, all: seq<Byte>, rest: seq<Byte>, n: nat, acc: Acc, soFar: nat)
    requires Absorbed(m, secret, all, n, acc, soFar)
    requires rest == all[STRIPE_LEN * n..] && BUFFER_SIZE <= |rest|
    ensures Absorbed(m, secret, all, n + BUFFER_STRIPES,
                     Absorb(m, secret, acc, rest, soFar, BUFFER_STRIPES), Advance(soFar, BUFFER_STRIPES, PerBlock(secret)))
    ensures rest[BUFFER_SIZE..] == all[STRIPE_LEN * (n + BUFFER_STRIPES)..]
    ensures rest[BUFFER_SIZE - STRIPE_LEN..BUFFER_SIZE] == StripeAt(all, n + BUFFER_STRIPES - 1)
  {
    assert rest[..BUFFER_SIZE] == all[STRIPE_LEN * n..STRIPE_LEN * (n + BUFFER_STRIPES)];
    AbsorbedStep(m, secret, all, n, acc, soFar, rest, BUFFER_STRIPES);
  }

  /** The bytes that digest assembles are the last stripe, whether or not it straddles the consumed part. */
  lemma LastStripe(m: Mixing, secret: Secret, fed: seq<Byte>, n: nat, acc: Acc, soFar: nat,
                   buf: seq<Byte>, buffered: nat)
    requires Buffered(m, secret, fed, n, acc, soFar, buf, buffered) && STRIPE_LEN <= |fed|
    ensures n == 0 ==> STRIPE_LEN <= buffered
    ensures STRIPE_LEN <= buffered ==> buf[buffered - STRIPE_LEN..buffered] == fed[|fed| - STRIPE_LEN..]
    ensures buffered < STRIPE_LEN ==>
              buf[BUFFER_SIZE - STRIPE_LEN + buffered..] + buf[..buffered] == fed[|fed| - STRIPE_LEN..]
  {
    if STRIPE_LEN <= buffered {
      assert buf[buffered - STRIPE_LEN..buffered] == buf[..buffered][buffered - STRIPE_LEN..];
    } else {
      assert buf[BUFFER_SIZE - STRIPE_LEN + buffered..] == fed[|fed| - STRIPE_LEN..STRIPE_LEN * n];
    }
  }

  /** Consuming the whole stripes buffered before the last byte completes the reference. */
  lemma LastStripes(m: Mixing, secret: Secret, fed: seq<Byte>, n: nat, acc: Acc, soFar: nat,
                    buf: seq<Byte>, buffered: nat)
    requires Buffered(m, secret, fed, n, acc, soFar, buf, buffered) && 0 < |fed|
    ensures 0 < buffered && soFar < PerBlock(secret)
    ensures buffered <= STRIPE_LEN ==> acc == Absorb(m, secret, m.initAcc, fed, 0, WholeStripes(|fed|))
    ensures Absorb(m, secret, acc, buf, soFar, (buffered - 1) / STRIPE_LEN)
         == Absorb(m, secret, m.initAcc, fed, 0, WholeStripes(|fed|))
  {
    var k := (buffered - 1) / STRIPE_LEN;
    assert buf[..STRIPE_LEN * k] == buf[..buffered][..STRIPE_LEN * k];
    AbsorbedStep(m, secret, fed, n, acc, soFar, buf, k);
    assert WholeStripes(|fed|) == n + k;
  }

  /** XXH3_state_t. The ghost fields record how it was reset and every byte fed since. */
  class State {
    const m: Mixing
    const buffer: array<Byte>
    var acc: Acc
    var customSecret: seq<Byte>
    var bufferedSize: nat
    var nbStripesSoFar: nat
    var totalLen: nat
    var nbStripesPerBlock: nat
    var secretLimit: nat
    var seed: nat
    var extSecret: Option<seq<Byte>>
    ghost var cfg: Config
    ghost var key: Secret
    ghost var fed: seq<Byte>
    ghost var consumed: nat  // stripes of fed already in acc

    /** What survives between sessions: a non-zero seed vouches for the cached secret. */
    ghost predicate SeedCached()
      reads this`seed, this`customSecret
    {
      && m.Sized() && buffer.Length == BUFFER_SIZE
      && (seed != 0 ==> customSecret == m.customSecret(seed))
    }

    /** The secret selected by the stored pointers is `key`. */
    ghost predicate Keyed()
      reads this`extSecret, this`customSecret, this`secretLimit, this`nbStripesPerBlock, this`key
    {
      && SecretInUse() == key
      && secretLimit == |key| - STRIPE_LEN
      && nbStripesPerBlock == PerBlock(key)
    }

    ghost predicate Configured()
      reads this`seed, this`customSecret, this`cfg, this`key
    {
      && SeedCached()
      && seed == Seed(cfg)
      && key == LongSecret(m, cfg)
    }

    ghost predicate Valid()
      reads this, buffer
    {
      && Configured() && Keyed()
      && totalLen == |fed| % TWO64 && buffer.Length == BUFFER_SIZE && bufferedSize <= BUFFER_SIZE
      && Buffered(m, key, fed, consumed, acc, nbStripesSoFar, buffer[..], bufferedSize)
    }

    constructor (m: Mixing)
      requires m.Sized()
      ensures SeedCached() && this.m == m && fresh(buffer)
    {
      this.m := m;
      buffer := new Byte[BUFFER_SIZE];
      seed := 0;
    }

    method ResetInternal(seed: nat, secret: Option<seq<Byte>>, secretSize: nat)
      requires buffer.Length == BUFFER_SIZE
      modifies this
      ensures bufferedSize == 0 && nbStripesSoFar == 0 && totalLen == 0 && acc == m.initAcc
      ensures this.seed == seed && extSecret == secret
      ensures secretLimit == (secretSize + TWO64 - STRIPE_LEN) % TWO64
      ensures nbStripesPerBlock == secretLimit / CONSUME_RATE
      ensures fed == [] && consumed == 0 && cfg == old(cfg) && customSecret == old(customSecret)
    {
      bufferedSize, nbStripesSoFar, totalLen, acc := 0, 0, 0, m.initAcc;
      this.seed := seed;
      extSecret := secret;
      secretLimit := (secretSize + TWO64 - STRIPE_LEN) % TWO64;
      nbStripesPerBlock := secretLimit / CONSUME_RATE;
      fed, consumed := [], 0;
    }

    method Reset()
      requires SeedCached()
      modifies this
      ensures Valid() && fed == [] && cfg == Default
    {
      hide Buffered;
      ResetInternal(0, Some(m.kSecret), SECRET_DEFAULT_SIZE);
      cfg, key := Default, m.kSecret;
      BufferNone(m, key, buffer[..]);
    }

    /** Fails, leaving a state that only another reset makes usable, unless the secret is long enough. */
    method ResetWithSecret(secret: Option<seq<Byte>>) returns (ok: bool)
      requires SeedCached()
      requires secret.Some? ==> |secret.value| < TWO64
      modifies this
      ensures SeedCached()
      ensures ok <==> secret.Some? && 136 <= |secret.value|
      ensures ok ==> Valid() && fed == [] && cfg == WithSecret(secret.value)
    {
      hide Buffered;
      var size := if secret.Some? then |secret.value| else 0;
      ResetInternal(0, secret, size);
      ok := secret.Some? && SECRET_SIZE_MIN <= size;
      if ok {
        cfg, key := WithSecret(secret.value), secret.value;
        BufferNone(m, key, buffer[..]);
      }
    }

    /** The custom secret is recomputed only when the seed differs from the cached one. */
    method ResetWithSeed(seed: nat)
      requires SeedCached()
      modifies this
      ensures Valid() && fed == [] && cfg == WithSeed(seed)
    {
      hide Buffered;
      if seed == 0 {
        Reset();
        cfg := WithSeed(0);
      } else {
        if seed != this.seed { customSecret := m.customSecret(seed); }
        ResetInternal(seed, None, SECRET_DEFAULT_SIZE);
        cfg, key := WithSeed(seed), customSecret;
        BufferNone(m, key, buffer[..]);
      }
    }

    function SecretInUse(): seq<Byte>
      reads this`extSecret, this`customSecret
    {
      if extSecret.None? then customSecret else extSecret.value
    }

    method Update(input: Option<seq<Byte>>) returns (ok: bool)
      requires Valid()
      modifies this, buffer
      ensures Valid() && cfg == old(cfg)
      ensures ok <==> input.Some?
      ensures fed == if ok then old(fed) + input.value else old(fed)
    {
      hide Buffered, Keyed, Configured;
      if input.None? { return false; }
      ok := true;
      var src := input.value;
      totalLen := (totalLen + |src|) % TWO64;
      ModAdd(|fed|, |src|, TWO64);
      if bufferedSize + |src| <= BUFFER_SIZE {
        Append(src);
      } else {
        Consume(src);
      }
    }

    method Append(src: seq<Byte>)
      requires Keyed() && buffer.Length == BUFFER_SIZE && bufferedSize + |src| <= BUFFER_SIZE
      requires Buffered(m, key, fed, consumed, acc, nbStripesSoFar, buffer[..], bufferedSize)
      modifies this`bufferedSize, this`fed, buffer
      ensures fed == old(fed) + src && bufferedSize == old(bufferedSize) + |src|
      ensures Buffered(m, key, fed, consumed, acc, nbStripesSoFar, buffer[..], bufferedSize)
    {
      hide Buffered, Keyed;
      ghost var was := buffer[..];
      CopyInto(buffer, bufferedSize, src);
      BufferMore(m, key, fed, consumed, acc, nbStripesSoFar, was, bufferedSize, src, buffer[..]);
      bufferedSize := bufferedSize + |src|;
      fed := fed + src;
    }

    method Consume(src: seq<Byte>)
      requires Keyed() && buffer.Length == BUFFER_SIZE && BUFFER_SIZE < bufferedSize + |src| && bufferedSize <= BUFFER_SIZE
      requires Buffered(m, key, fed, consumed, acc, nbStripesSoFar, buffer[..], bufferedSize)
      modifies this`bufferedSize, this`acc, this`nbStripesSoFar, this`consumed, this`fed, buffer
      ensures fed == old(fed) + src && bufferedSize <= BUFFER_SIZE
      ensures Buffered(m, key, fed, consumed, acc, nbStripesSoFar, buffer[..], bufferedSize)
    {
      hide Buffered, Drained, Keyed;
      ghost var all := fed + src;
      var p := 0;
      if bufferedSize > 0 {
        p := FillAndConsume(src);
      } else {
        BufferEmpty(m, key, fed, consumed, acc, nbStripesSoFar, buffer[..], src);
        assert src[p..] == src;
      }
      p := ConsumeDirectly(src, p, all);
      ghost var was := buffer[..];
      CopyInto(buffer, 0, src[p..]);
      BufferRest(m, key, all, src[p..], consumed, acc, nbStripesSoFar, was, buffer[..]);
      bufferedSize := |src| - p;
      fed := all;
    }

    /** Completes the partly filled buffer and consumes it whole. */
    method FillAndConsume(src: seq<Byte>) returns (p: nat)
      requires Keyed() && buffer.Length == BUFFER_SIZE && 0 < bufferedSize && BUFFER_SIZE < bufferedSize + |src|
      requires Buffered(m, key, fed, consumed, acc, nbStripesSoFar, buffer[..], bufferedSize)
      modifies this`bufferedSize, this`acc, this`nbStripesSoFar, this`consumed, buffer
      ensures p < |src|
      ensures Drained(m, key, fed + src, src[p..], consumed, acc, nbStripesSoFar, buffer[..])
    {
      hide Absorb, Advance;
      p := BUFFER_SIZE - bufferedSize;
      ghost var was := buffer[..];
      CopyInto(buffer, bufferedSize, src[..p]);
      var chunk := buffer[..];
      assert chunk == was[..bufferedSize] + src[..p];
      DrainBuffer(m, key, fed, src, consumed, acc, nbStripesSoFar, was, bufferedSize, chunk);
      acc, nbStripesSoFar := ConsumeStripes(m, acc, nbStripesSoFar, chunk, BUFFER_STRIPES, SecretInUse());
      bufferedSize := 0;
      consumed := consumed + BUFFER_STRIPES;
    }

    /** Consumes whole buffer lengths straight from the input, always leaving at least one byte. */
    method ConsumeDirectly(src: seq<Byte>, start: nat, ghost all: seq<Byte>) returns (p: nat)
      requires Keyed() && buffer.Length == BUFFER_SIZE && start < |src|
      requires Drained(m, key, all, src[start..], consumed, acc, nbStripesSoFar, buffer[..])
      modifies this`acc, this`nbStripesSoFar, this`consumed, buffer
      ensures p < |src| <= p + BUFFER_SIZE
      ensures Drained(m, key, all, src[p..], consumed, acc, nbStripesSoFar, buffer[..])
    {
      hide Absorb, Advance, LongSecret, PerBlock, StripeAt;
      p := start;
      if p + BUFFER_SIZE < |src| {
        var limit := |src| - BUFFER_SIZE;
        while p < limit
          invariant start <= p < |src|
          invariant p > start ==> p >= STRIPE_LEN && consumed >= BUFFER_STRIPES
          invariant Absorbed(m, key, all, consumed, acc, nbStripesSoFar)
          invariant src[p..] == all[STRIPE_LEN * consumed..]
          invariant p > start ==> src[p - STRIPE_LEN..p] == StripeAt(all, consumed - 1)
        {
          var rest := src[p..];
          DrainDirect(m, key, all, rest, consumed, acc, nbStripesSoFar);
          acc, nbStripesSoFar := ConsumeStripes(m, acc, nbStripesSoFar, rest, BUFFER_STRIPES, SecretInUse());
          p := p + BUFFER_SIZE;
          consumed := consumed + BUFFER_STRIPES;
          SliceBehind(src, p - BUFFER_SIZE, BUFFER_SIZE - STRIPE_LEN, BUFFER_SIZE);
        }
        CopyInto(buffer, BUFFER_SIZE - STRIPE_LEN, src[p - STRIPE_LEN..p]);
        assert buffer[..][BUFFER_SIZE - STRIPE_LEN..] == src[p - STRIPE_LEN..p];
      }
    }

    /** The accumulators of the whole input, rebuilt on a copy so that feeding can go on. */
    method DigestLong() returns (r: Acc)
      requires Valid() && MIDSIZE_MAX < |fed|
      ensures r == LongAcc(m, key, fed)
    {
      hide Buffered, Absorb, Configured;
      r := FinalStripes();
      var last := FinalBytes();
      var secret: Secret := SecretInUse();
      var lastSecret := secret[secretLimit - LASTACC_START..secretLimit - LASTACC_START + STRIPE_LEN];
      assert lastSecret == LastSecret(secret);
      r := m.acc512(r, last, lastSecret);
    }

    /** All stripes but the last; a stripe or less in the buffer is left for the last. */
    method FinalStripes() returns (r: Acc)
      requires Keyed() && buffer.Length == BUFFER_SIZE && bufferedSize <= BUFFER_SIZE && 0 < |fed|
      requires Buffered(m, key, fed, consumed, acc, nbStripesSoFar, buffer[..], bufferedSize)
      ensures r == Absorb(m, key, m.initAcc, fed, 0, WholeStripes(|fed|))
    {
      hide Buffered, Absorb, WholeStripes;
      LastStripes(m, key, fed, consumed, acc, nbStripesSoFar, buffer[..], bufferedSize);
      r := acc;
      if bufferedSize >= STRIPE_LEN {
        var nbStripes := (bufferedSize - 1) / STRIPE_LEN;
        var soFar;
        r, soFar := ConsumeStripes(m, acc, nbStripesSoFar, buffer[..], nbStripes, SecretInUse());
      }
    }

    /** The last stripe, pieced together when it straddles the consumed part. */
    method FinalBytes() returns (last: seq<Byte>)
      requires Keyed() && buffer.Length == BUFFER_SIZE && bufferedSize <= BUFFER_SIZE && STRIPE_LEN <= |fed|
      requires Buffered(m, key, fed, consumed, acc, nbStripesSoFar, buffer[..], bufferedSize)
      ensures last == fed[|fed| - STRIPE_LEN..]
    {
      hide Buffered;
      var buf := buffer[..];
      LastStripe(m, key, fed, consumed, acc, nbStripesSoFar, buf, bufferedSize);
      if bufferedSize >= STRIPE_LEN {
        last := buf[bufferedSize - STRIPE_LEN..bufferedSize];
      } else {
        var catchup := STRIPE_LEN - bufferedSize;
        last := buf[BUFFER_SIZE - catchup..] + buf[..bufferedSize];
      }
    }

    method Digest64() returns (h: nat)
      requires Valid() && |fed| < TWO64
      ensures h == OneShot64(m, cfg, fed)
    {
      if totalLen > MIDSIZE_MAX {
        var a := DigestLong();
        h := Merge64(m, SecretInUse(), a, totalLen);
      } else {
        var input := ShortInput();
        if seed != 0 {
          h := Bits64(m, WithSeed(seed), input);
        } else {
          h := Bits64(m, WithSecret(SecretInUse()), input);
        }
      }
    }

    method Digest128() returns (h: Hash128)
      requires Valid() && |fed| < TWO64
      ensures h == OneShot128(m, cfg, fed)
    {
      if totalLen > MIDSIZE_MAX {
        var a := DigestLong();
        h := Merge128(m, SecretInUse(), a, totalLen);
      } else {
        var input := ShortInput();
        if seed != 0 {
          h := Bits128(m, WithSeed(seed), input);
        } else {
          h := Bits128(m, WithSecret(SecretInUse()), input);
        }
      }
    }

    /** An input that never overflowed the buffer is still all there. */
    method ShortInput() returns (input: seq<Byte>)
      requires Valid() && |fed| < TWO64 && |fed| <= MIDSIZE_MAX
      ensures input == fed
    {
      input := buffer[..totalLen];
      assert input == buffer[..][..bufferedSize];
    }
  }

  /** Any split of an input into updates digests to its one-shot hash, in every configuration. */
  method Hash64Chunks(m: Mixing, cfg: Config, chunks: seq<seq<Byte>>) returns (h: nat)
    requires m.Sized() && |Flatten(chunks)| < TWO64
    requires cfg.WithSecret? ==> |cfg.secret| < TWO64
    ensures h == OneShot64(m, cfg, Flatten(chunks))
  {
    var state := FedState(m, cfg, chunks);
    h := state.Digest64();
  }

  method Hash128Chunks(m: Mixing, cfg: Config, chunks: seq<seq<Byte>>) returns (h: Hash128)
    requires m.Sized() && |Flatten(chunks)| < TWO64
    requires cfg.WithSecret? ==> |cfg.secret| < TWO64
    ensures h == OneShot128(m, cfg, Flatten(chunks))
  {
    var state := FedState(m, cfg, chunks);
    h := state.Digest128();
  }

  method FedState(m: Mixing, cfg: Config, chunks: seq<seq<Byte>>) returns (state: State)
    requires m.Sized() && (cfg.WithSecret? ==> |cfg.secret| < TWO64)
    ensures state.Valid() && state.m == m && state.cfg == cfg && state.fed == Flatten(chunks)
  {
    hide Buffered, State.Configured, State.Keyed;
    state := NewState(m, cfg);
    for i := 0 to |chunks|
      invariant fresh(state) && fresh(state.buffer)
      invariant state.Valid() && state.m == m && state.cfg == cfg && state.fed == Flatten(chunks[..i])
    {
      var ok := state.Update(Some(chunks[i]));
      assert chunks[..i + 1][..i] == chunks[..i];
    }
    assert chunks[..|chunks|] == chunks;
  }

  method NewState(m: Mixing, cfg: Config) returns (state: State)
    requires m.Sized() && (cfg.WithSecret? ==> |cfg.secret| < TWO64)
    ensures fresh(state) && fresh(state.buffer)
    ensures state.Valid() && state.m == m && state.cfg == cfg && state.fed == []
  {
    hide Buffered;
    state := new State(m);
    match cfg {
      case Default => state.Reset();
      case WithSecret(secret) => var ok := state.ResetWithSecret(Some(secret));
      case WithSeed(seed) => state.ResetWithSeed(seed);
    }
  }
}
