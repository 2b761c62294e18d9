/** Division, remainder and powers of two, in the form the models use them. */
module Arith {

  lemma MulLe(a: nat, b: nat, k: nat)
    requires a <= b
    ensures a * k <= b * k
  {
    assert b * k - a * k == (b - a) * k;
    MulNat(b - a, k);
  }

  lemma MulNat(a: nat, b: nat)
    ensures a * b >= 0
  {}

  lemma DivFacts(x: nat, k: nat)
    requires k > 0
    ensures 0 <= x / k * k <= x < x / k * k + k && x == x / k * k + x % k
  {
    var q := x / k;
    MulNat(q, k);
    assert q * k == k * q;
  }

  /** Quotient and remainder are determined by the division equation. */
  lemma DivModUnique(x: nat, k: nat, q: nat, r: nat)
    requires k > 0 && x == q * k + r && r < k
    ensures x / k == q && x % k == r
  {
    var q', r' := x / k, x % k;
    assert x == q' * k + r';
    if q < q' {
      MulLe(q + 1, q', k);
    } else if q' < q {
      MulLe(q' + 1, q, k);
    }
  }

  lemma ModShift(a: nat, q: nat, k: nat)
    requires k > 0
    ensures q * k >= 0
    ensures (a + q * k) % k == a % k && (a + q * k) / k == a / k + q
  {
    MulNat(q, k);
    assert a == (a / k) * k + a % k;
    assert (a / k + q) * k == (a / k) * k + q * k;
    DivModUnique(a + q * k, k, a / k + q, a % k);
  }

  lemma ModAdd(a: nat, b: nat, k: nat)
    requires k > 0
    ensures (a % k + b) % k == (a + b) % k
  {
    ModShift(a % k + b, a / k, k);
    assert a + b == a % k + b + (a / k) * k;
  }

  /** (a mod k) + b wraps at most once when it stays below 2k. */
  lemma ModAddCases(a: nat, b: nat, k: nat)
    requires k > 0 && b <= k
    ensures (a + b) % k == if a % k + b < k then a % k + b else a % k + b - k
  {
    ModAdd(a, b, k);
    var s := a % k + b;
    if s < k { DivModUnique(s, k, 0, s); } else { DivModUnique(s, k, 1, s - k); }
  }

  lemma MulNext(w: nat, b: nat)
    ensures w * (b + 1) == w * b + w && w * b >= 0
  {
    MulNat(w, b);
  }

  lemma SuccMul(i: nat, k: nat)
    ensures (i + 1) * k == i * k + k && i * k >= 0
  {
    MulNat(i, k);
  }

  lemma MulComm(a: nat, b: nat)
    ensures a * b == b * a
  {}

  lemma DivNat(x: nat, k: nat)
    requires k > 0
    ensures x / k >= 0
  {}

  /** Quotient and remainder of the successor. */
  lemma DivModNext(i: nat, k: nat)
    requires k > 0
    ensures if i % k + 1 < k then (i + 1) / k == i / k && (i + 1) % k == i % k + 1
            else i % k + 1 == k && (i + 1) / k == i / k + 1 && (i + 1) % k == 0
  {
    DivFacts(i, k);
    var q, r := i / k, i % k;
    if r + 1 < k {
      DivModUnique(i + 1, k, q, r + 1);
    } else {
      assert (q + 1) * k == q * k + k;
      DivModUnique(i + 1, k, q + 1, 0);
    }
  }

  /** x/k stays below q when x stays below q*k. */
  lemma DivBelow(x: nat, k: nat, q: nat)
    requires k > 0 && x < q * k
    ensures x / k < q
  {
    DivFacts(x, k);
    if x / k >= q { MulLe(q, x / k, k); }
  }

  function Pow2(k: nat): (p: nat)
    ensures p > 0
  {
    if k == 0 then 1 else 2 * Pow2(k - 1)
  }

  lemma {:induction false} Pow2Add(a: nat, b: nat)
    ensures Pow2(a + b) == Pow2(a) * Pow2(b)
  {
    if b > 0 { Pow2Add(a, b - 1); }
  }

  lemma {:induction false} Pow2Mono(a: nat, b: nat)
    requires a <= b
    ensures Pow2(a) <= Pow2(b)
    decreases b - a
  {
    if a < b { Pow2Mono(a, b - 1); }
  }

  lemma Pow2Thirty()
    ensures Pow2(30) == 0x4000_0000
  {
    hide Pow2;
    Pow2Five();
    Pow2Add(5, 5);
    Pow2Add(10, 10);
    Pow2Add(20, 10);
  }

  lemma Pow2Five()
    ensures Pow2(5) == 32
  {
    assert Pow2(5) == 2 * Pow2(4) && Pow2(4) == 2 * Pow2(3) && Pow2(3) == 2 * Pow2(2) && Pow2(2) == 2 * Pow2(1);
  }
}
