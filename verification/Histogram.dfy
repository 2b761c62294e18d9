/**
 * Recording and percentile reports of the histogram (src/stats/cc_histogram.c).
 * Percentiles are exact reals, and a threshold is the exact ceiling.
 */
module Histogram {
  import opened Bytes
  import opened Arith
  import opened Buckets

  datatype Status = OK | EOVERFLOW | EUNDERFLOW | EEMPTY | EORDER

  /** Records in the first `k` buckets. */
  function Prefix(b: seq<nat>, k: nat): nat
    requires k <= |b|
  {
    if k == 0 then 0 else Prefix(b, k - 1) + b[k - 1]
  }

  function Total(b: seq<nat>): nat { Prefix(b, |b|) }

  lemma {:induction false} PrefixMono(b: seq<nat>, i: nat, j: nat)
    requires i <= j <= |b|
    ensures Prefix(b, i) <= Prefix(b, j)
    decreases j - i
  {
    if i < j { PrefixMono(b, i, j - 1); }
  }

  lemma {:induction false} PrefixUpdate(b: seq<nat>, i: nat, v: nat, k: nat)
    requires i < |b| && k <= |b|
    ensures Prefix(b[i := v], k) == Prefix(b, k) + if i < k then v - b[i] else 0
    decreases k
  {
    if k > 0 { PrefixUpdate(b, i, v, k - 1); }
  }

  // ------------------------------------------------------------------
  // Recording
  // ------------------------------------------------------------------

  /** Buckets hold 32 bits of the true counts. */
  ghost predicate Truncates(b: seq<nat>, exact: seq<nat>) {
    |b| == |exact| && forall i :: 0 <= i < |b| ==> b[i] == exact[i] % TWO32
  }

  /** The buckets still add up to the true counts exactly when none of them has wrapped. */
  lemma {:induction false} AddsUpIffNoWrap(b: seq<nat>, exact: seq<nat>, k: nat)
    requires Truncates(b, exact) && k <= |b|
    ensures Prefix(b, k) <= Prefix(exact, k)
    ensures Prefix(b, k) == Prefix(exact, k) <==> forall i :: 0 <= i < k ==> exact[i] < TWO32
    decreases k
  {
    if k > 0 { AddsUpIffNoWrap(b, exact, k - 1); }
  }

  /** One more count, in the bucket and in the total. */
  lemma RecordFacts(b: seq<nat>, exact: seq<nat>, i: nat, count: nat)
    requires Truncates(b, exact) && i < |b|
    ensures Truncates(b[i := (b[i] + count) % TWO32], exact[i := exact[i] + count])
    ensures Total(exact[i := exact[i] + count]) == Total(exact) + count
    ensures (Total(exact) % TWO64 + count) % TWO64 == (Total(exact) + count) % TWO64
  {
    hide Prefix;
    PrefixUpdate(exact, i, exact[i] + count, |exact|);
    ModAdd(exact[i], count, TWO32);
    ModAdd(Total(exact), count, TWO64);
  }

  class Histo {
    const shape: Shape
    const buckets: array<nat>
    var nrecord: nat
    ghost var exact: seq<nat>  // the true count of every bucket

    ghost predicate Valid()
      reads this, buckets
    {
      && shape.Valid() && buckets.Length == shape.NBucket() > 0
      && Truncates(buckets[..], exact) && nrecord == Total(exact) % TWO64
    }

    /** The records are all in the buckets. */
    ghost predicate Faithful()
      reads this, buckets
    {
      Total(buckets[..]) == nrecord
    }

    constructor (shape: Shape)
      requires shape.Valid()
      ensures Valid() && this.shape == shape && nrecord == 0 && Total(exact) == 0 && fresh(buckets)
    {
      this.shape := shape;
      FirstAndLast(shape);
      buckets := new nat[shape.NBucket()](_ => 0);
      nrecord := 0;
      exact := seq(shape.NBucket(), _ => 0);
      ZeroTotal(seq(shape.NBucket(), _ => 0), shape.NBucket());
    }

    /** Counts the value in the one bucket whose range contains it; other buckets stay. */
    method Record(value: nat, count: nat) returns (status: Status)
      requires Valid() && count < TWO32
      modifies this, buckets
      ensures Valid()
      ensures status == if value > shape.N() then EOVERFLOW else OK
      ensures status.EOVERFLOW? ==> exact == old(exact)
      ensures status.OK? ==>
                exists i :: 0 <= i < |old(exact)| && Low(shape, i) <= value <= High(shape, i) &&
                  exact == old(exact)[i := old(exact)[i] + count]
      ensures status.OK? ==> Total(exact) == Total(old(exact)) + count
    {
      hide Low, High, Offset, Truncates, Prefix, Shape.NBucket, Shape.N;
      if value > shape.N() { return EOVERFLOW; }
      var offset := Offset(shape, value);
      Partition(shape, value, offset);
      SameLength(buckets[..], exact);
      RecordFacts(buckets[..], exact, offset, count);
      ghost var b := buckets[..];
      buckets[offset] := (buckets[offset] + count) % TWO32;
      assert buckets[..] == b[offset := (b[offset] + count) % TWO32];
      nrecord := (nrecord + count) % TWO64;
      exact := exact[offset := exact[offset] + count];
      return OK;
    }
  }

  lemma SameLength(b: seq<nat>, exact: seq<nat>)
    requires Truncates(b, exact)
    ensures |b| == |exact|
  {}

  /** Below 2^64 records, they are all in the buckets if and only if no bucket has wrapped. */
  lemma FaithfulIff(h: Histo)
    requires h.Valid() && Total(h.exact) < TWO64
    ensures h.Faithful() <==> forall i :: 0 <= i < |h.exact| ==> h.exact[i] < TWO32
  {
    AddsUpIffNoWrap(h.buckets[..], h.exact, |h.exact|);
  }

  lemma {:induction false} ZeroTotal(b: seq<nat>, k: nat)
    requires k <= |b| && forall i :: 0 <= i < |b| ==> b[i] == 0
    ensures Prefix(b, k) == 0
    decreases k
  {
    if k > 0 { ZeroTotal(b, k - 1); }
  }

  // ------------------------------------------------------------------
  // Percentiles
  // ------------------------------------------------------------------

  function Ceil(x: real): int { -(-x).Floor }

  function Threshold(nrecord: nat, p: real): int { Ceil(p * nrecord as real / 100.0) }

  lemma ThresholdBounds(nrecord: nat, p: real)
    requires 0.0 <= p <= 100.0
    ensures 0 <= Threshold(nrecord, p) <= nrecord
    ensures Threshold(nrecord, 100.0) == nrecord
  {
    var n := nrecord as real;
    assert 0.0 <= p * n <= 100.0 * n by { RealMul(p, 100.0, n); RealMul(0.0, p, n); }
    assert p * n / 100.0 <= n;
  }

  /** The threshold is the least integer that is not below p percent of the records. */
  lemma ThresholdLeast(nrecord: nat, p: real)
    ensures var t := Threshold(nrecord, p); (t - 1) as real < p * nrecord as real / 100.0 <= t as real
  {}

  lemma RealMul(a: real, b: real, c: real)
    requires a <= b && 0.0 <= c
    ensures a * c <= b * c
  {}

  lemma ThresholdMono(nrecord: nat, p: real, q: real)
    requires p <= q
    ensures Threshold(nrecord, p) <= Threshold(nrecord, q)
  {
    RealMul(p, q, nrecord as real);
  }

  /** Bucket `i` holds the `t`-th record, counting from the lowest. */
  ghost predicate Holds(b: seq<nat>, t: int, i: nat) {
    i < |b| && Prefix(b, i) < t <= Prefix(b, i + 1)
  }

  lemma HoldsUnique(b: seq<nat>, t: int, i: nat, j: nat)
    requires Holds(b, t, i) && Holds(b, t, j)
    ensures i == j
  {
    if i < j { PrefixMono(b, i + 1, j); } else if j < i { PrefixMono(b, j + 1, i); }
  }

  /** The rank asked for by a threshold; 0 still means the lowest record. */
  function Rank(t: int): int { if t < 1 then 1 else t }

  /** At least p percent of the records are in the buckets up to `i`, and less in those before it, or none at all. */
  ghost predicate IsPercentile(b: seq<nat>, n: nat, p: real, i: nat) {
    && i < |b| && 0 < Prefix(b, i + 1) && p * n as real <= 100.0 * Prefix(b, i + 1) as real
    && (Prefix(b, i) == 0 || 100.0 * Prefix(b, i) as real < p * n as real)
  }

  /** Finding the record of the rank is finding the percentile. */
  lemma PercentileIff(b: seq<nat>, n: nat, p: real, i: nat)
    ensures Holds(b, Rank(Threshold(n, p)), i) <==> IsPercentile(b, n, p, i)
  {
    hide Threshold, Prefix;
    ThresholdLeast(n, p);
    if i < |b| {
      RankReached(p * n as real / 100.0, Threshold(n, p), Prefix(b, i));
      RankReached(p * n as real / 100.0, Threshold(n, p), Prefix(b, i + 1));
    }
  }

  lemma RankReached(x: real, t: int, count: nat)
    requires (t - 1) as real < x <= t as real
    ensures Rank(t) <= count <==> 0 < count && x <= count as real
  {
    if t <= count { assert t as real <= count as real; } else { assert count as real <= (t - 1) as real; }
  }

  /** Bucket `low` is the lowest that is not empty. */
  ghost predicate IsLowest(b: seq<nat>, low: nat) { low < |b| && b[low] > 0 && Prefix(b, low) == 0 }

  ghost predicate IsHighest(b: seq<nat>, top: nat) {
    top < |b| && b[top] > 0 && forall i :: top < i < |b| ==> b[i] == 0
  }

  /** Index of the lowest bucket that is not empty, as both reports start. */
  method FindLowest(b: array<nat>) returns (low: nat)
    ensures if Total(b[..]) > 0 then IsLowest(b[..], low) else low == b.Length
  {
    low := 0;
    while low < b.Length && b[low] == 0
      invariant low <= b.Length && Prefix(b[..], low) == 0
    {
      low := low + 1;
    }
    if low < b.Length { PrefixMono(b[..], low + 1, b.Length); }
  }

  /** DBL_EPSILON: doubles that differ by less are taken for equal. */
  const EPSILON: real := 1.0 / 4503599627370496.0

  predicate Greater(a: real, b: real) { a - b >= EPSILON }

  /** Either one is greater, by 2^-52 at least, or they are taken for equal. */
  lemma GreaterOrClose(a: real, b: real)
    ensures !(Greater(a, b) && Greater(b, a)) && (Greater(a, b) ==> a > b)
    ensures !Greater(a, b) && !Greater(b, a) <==> -1.0 < (a - b) * 4503599627370496.0 < 1.0
  {}

  /** What a report gives: the bucket of the rank, the last bucket when the buckets hold fewer, their number when none. */
  ghost predicate Reported(b: seq<nat>, rank: int, value: nat) {
    if Total(b) == 0 then value == |b|
    else if rank <= Total(b) then Holds(b, rank, value)
    else value == |b| - 1
  }

  /** The buckets hold p percent of the records. */
  ghost predicate IsReached(b: seq<nat>, n: nat, p: real) { 0 < Total(b) && p * n as real <= 100.0 * Total(b) as real }

  lemma ReachedIff(b: seq<nat>, n: nat, p: real)
    ensures IsReached(b, n, p) <==> Rank(Threshold(n, p)) <= Total(b)
  {
    hide Threshold, Prefix;
    ThresholdLeast(n, p);
    RankReached(p * n as real / 100.0, Threshold(n, p), Total(b));
  }

  /** The bucket of the p-th percentile: the one that holds the record of that rank, if one does. */
  method Report(h: Histo, p: real) returns (status: Status, value: nat)
    requires h.Valid()
    ensures status == if Greater(p, 100.0) then EOVERFLOW else if Greater(0.0, p) then EUNDERFLOW
                      else if h.nrecord == 0 then EEMPTY else OK
    ensures status.OK? ==> Reported(h.buckets[..], Rank(Threshold(h.nrecord, p)), value)
    ensures status.OK? && IsReached(h.buckets[..], h.nrecord, p) ==> IsPercentile(h.buckets[..], h.nrecord, p, value)
  {
    hide Threshold, Shape.NBucket, Shape.Valid, Truncates, Prefix, IsPercentile, IsReached;
    value := 0;
    if Greater(p, 100.0) { return EOVERFLOW, value; }
    if Greater(0.0, p) { return EUNDERFLOW, value; }
    if h.nrecord == 0 { return EEMPTY, value; }
    value := ScanAlone(h.buckets, Threshold(h.nrecord, p));
    status := OK;
    PercentileIff(h.buckets[..], h.nrecord, p, value);
    ReachedIff(h.buckets[..], h.nrecord, p);
  }

  method ScanAlone(b: array<nat>, threshold: int) returns (value: nat)
    ensures Reported(b[..], Rank(threshold), value)
  {
    var offset := FindLowest(b);
    value := offset;
    ghost var low := offset;
    var rcount := 0;
    if low < b.Length { PrefixMono(b[..], low + 1, b.Length); }
    while offset < b.Length && rcount < threshold
      invariant low <= offset <= b.Length && rcount == Prefix(b[..], offset)
      invariant rcount < threshold || Holds(b[..], Rank(threshold), value) || low == b.Length
      invariant value == if offset == low then low else offset - 1
    {
      rcount := rcount + b[offset];
      value := offset;
      offset := offset + 1;
    }
    if value < b.Length { PrefixMono(b[..], value + 1, b.Length); }
  }

  /** When all records are in the buckets, every percentile from 0 to 100 gets its bucket. */
  lemma FaithfulReport(h: Histo, p: real, value: nat)
    requires h.Faithful() && h.nrecord > 0 && 0.0 <= p <= 100.0
    requires Reported(h.buckets[..], Rank(Threshold(h.nrecord, p)), value)
    ensures Holds(h.buckets[..], Rank(Threshold(h.nrecord, p)), value)
  {
    ThresholdBounds(h.nrecord, p);
  }

  class Profile {
    const percentile: array<real>
    const result: array<nat>
    var count: nat
    var min: nat
    var max: nat

    constructor (cap: nat)
      ensures percentile.Length == result.Length == cap && count == 0
      ensures fresh(percentile) && fresh(result)
    {
      percentile := new real[cap](_ => 0.0);
      result := new nat[cap](_ => 0);
      count := 0;
    }
  }

  /** Percentiles in range and increasing, as far as EPSILON tells. */
  ghost predicate Accepted(ps: seq<real>) {
    && (forall i :: 0 <= i < |ps| ==> !Greater(ps[i], 100.0) && !Greater(0.0, ps[i]))
    && (forall i, j :: 0 <= i < j < |ps| ==> Greater(ps[j], ps[i]))
  }

  /** What is wrong with the first percentile that is refused. */
  function Fault(p: real): Status {
    if Greater(p, 100.0) then EOVERFLOW else if Greater(0.0, p) then EUNDERFLOW else EORDER
  }

  /** Accepts exactly such lists; a refused list still leaves its count behind. */
  method ProfileSet(pp: Profile, ps: seq<real>) returns (status: Status)
    requires |ps| <= pp.percentile.Length
    modifies pp`count, pp.percentile
    ensures pp.count == |ps|
    ensures status.OK? <==> Accepted(ps)
    ensures status.OK? ==> pp.percentile[..pp.count] == ps
    ensures !status.OK? ==>
              exists i :: 0 <= i < |ps| && Accepted(ps[..i]) && !Accepted(ps[..i + 1]) && status == Fault(ps[i])
  {
    var last := -1.0;
    pp.count := |ps|;
    for i := 0 to |ps|
      invariant pp.count == |ps| && Accepted(ps[..i]) && pp.percentile[..i] == ps[..i]
      invariant last == if i == 0 then -1.0 else ps[i - 1]
    {
      assert ps[..i + 1][i] == ps[i] && (i > 0 ==> ps[..i + 1][i - 1] == last);
      if Greater(ps[i], 100.0) { return EOVERFLOW; }
      if Greater(0.0, ps[i]) { return EUNDERFLOW; }
      if Greater(last, ps[i]) || -EPSILON < ps[i] - last < EPSILON { return EORDER; }
      last := ps[i];
      pp.percentile[i] := ps[i];
      assert ps[..i + 1] == ps[..i] + [ps[i]] && pp.percentile[..i + 1] == ps[..i + 1];
    }
    assert ps[..|ps|] == ps;
    status := OK;
  }

  /** 0 and 10^-17 are in range and in order, but too close. */
  lemma TooClose()
    ensures !Accepted([0.0, 0.000_000_000_000_000_01])
  {
    var ps := [0.0, 0.000_000_000_000_000_01];
    assert !Greater(ps[1], ps[0]);
  }

  // ------------------------------------------------------------------
  // All percentiles in one pass
  // ------------------------------------------------------------------

  /** `curr` buckets are scanned; `offset` is the last of them that is not empty, or the lowest. */
  ghost predicate Scanned(b: seq<nat>, low: nat, curr: nat, offset: nat, rcount: nat) {
    && IsLowest(b, low) && low <= curr <= |b| && rcount == Prefix(b, curr)
    && (if curr == low then offset == low else low <= offset < curr && b[offset] > 0 && Prefix(b, offset + 1) == rcount)
  }

  /** Scans until the threshold is met, which the last bucket added did, or to the end. */
  method ScanTo(b: array<nat>, threshold: int, ghost low: nat, curr0: nat, offset0: nat, rcount0: nat)
    returns (curr: nat, offset: nat, rcount: nat)
    requires Scanned(b[..], low, curr0, offset0, rcount0)
    requires rcount0 < threshold || curr0 == low
    ensures Scanned(b[..], low, curr, offset, rcount)
    ensures threshold <= Total(b[..]) ==> threshold <= rcount && Holds(b[..], Rank(threshold), offset)
    ensures threshold <= Total(b[..]) ==> curr == if threshold < 1 then low else offset + 1
    ensures threshold > Total(b[..]) ==> curr == b.Length && rcount == Total(b[..])
  {
    curr, offset, rcount := curr0, offset0, rcount0;
    while curr < b.Length && rcount < threshold
      invariant Scanned(b[..], low, curr, offset, rcount)
      invariant rcount0 >= threshold ==> curr == curr0 && offset == offset0 && rcount == rcount0
      invariant rcount0 < threshold <= rcount ==> curr == offset + 1 && Prefix(b[..], offset) < threshold
    {
      if b[curr] > 0 {
        rcount := rcount + b[curr];
        offset := curr;
      }
      curr := curr + 1;
    }
    PrefixMono(b[..], curr, b.Length);
  }

  /** The results of one pass over buckets that are not all empty. */
  ghost predicate AllReported(b: seq<nat>, n: nat, ps: seq<real>, before: seq<nat>, result: seq<nat>, min: nat, max: nat)
    requires |ps| <= |result| == |before|
  {
    && IsLowest(b, min)
    && (forall j :: 0 <= j < |ps| ==>
         (Holds(b, Rank(Threshold(n, ps[j])), result[j]) <==> Threshold(n, ps[j]) <= Total(b)))
    && (if |ps| == 0 then max == min
        else if Threshold(n, ps[|ps| - 1]) <= Total(b) then max == result[|ps| - 1]
        else IsHighest(b, max))
    && (forall j :: 0 <= j < |ps| && Threshold(n, ps[j]) > Total(b) ==>
         if Reopened(b, n, ps, result, j) then IsHighest(b, result[j]) else result[j] == before[j])
  }

  /** The scan is not over when percentile `j` comes up, and the one before was reached: it gets what the scan ends with. */
  ghost predicate Reopened(b: seq<nat>, n: nat, ps: seq<real>, result: seq<nat>, j: nat)
    requires j < |ps| <= |result|
  {
    j == 0 || (Threshold(n, ps[j - 1]) <= Total(b) && (Threshold(n, ps[j - 1]) < 1 || result[j - 1] + 1 < |b|))
  }

  /**
   * Every percentile whose rank the buckets reach gets the bucket it would get alone, and no other does: the
   * first of those may get the last bucket in use, the rest keep what they had. min is the lowest bucket in use,
   * max the last one found.
   */
  method ReportMulti(pp: Profile, h: Histo) returns (status: Status)
    requires h.Valid()
    requires pp.count <= pp.percentile.Length == pp.result.Length && Accepted(pp.percentile[..pp.count])
    requires pp.result != h.buckets
    modifies pp`min, pp`max, pp.result
    ensures status == if h.nrecord == 0 then EEMPTY else OK
    ensures status.OK? && Total(h.buckets[..]) == 0 ==>
              pp.min == pp.max == h.buckets.Length && pp.result[..] == old(pp.result[..])
    ensures status.OK? && Total(h.buckets[..]) > 0 ==>
              AllReported(h.buckets[..], h.nrecord, pp.percentile[..pp.count], old(pp.result[..]), pp.result[..], pp.min, pp.max)
  {
    hide Prefix, Threshold, Holds, Truncates, Shape.Valid, Shape.NBucket, AllReported;
    if h.nrecord == 0 { return EEMPTY; }
    var b, n := h.buckets, h.nrecord;
    var low := FindLowest(b);
    pp.min := low;
    var offset, curr := low, low;
    ghost var d, ps := b[..], pp.percentile[..pp.count];
    if low < b.Length {
      curr, offset := Pass(pp, b, n, low);
      assert b[..] == d && pp.percentile[..pp.count] == ps;
      PassReported(d, n, ps, old(pp.result[..]), pp.result[..], low, offset);
    }
    ghost var result := pp.result[..];
    pp.max := offset;
    while curr < b.Length
      modifies pp`max
      invariant pp.max == offset
    {
      pp.max := if b[curr] == 0 then pp.max else offset;
      curr := curr + 1;
    }
    status := OK;
    assert b[..] == d && pp.percentile[..pp.count] == ps && pp.result[..] == result;
  }

  /** The first `k` results are what each percentile asks for, if the buckets reach it. */
  ghost predicate Filled(b: seq<nat>, n: nat, ps: seq<real>, result: seq<nat>, k: nat) {
    && k <= |ps| && k <= |result|
    && forall j :: 0 <= j < k && Threshold(n, ps[j]) <= Total(b) ==> Holds(b, Rank(Threshold(n, ps[j])), result[j])
  }

  /** All are, and `offset` is the last bucket found. */
  ghost predicate Passed(b: seq<nat>, n: nat, ps: seq<real>, before: seq<nat>, result: seq<nat>, low: nat, offset: nat) {
    && |ps| <= |result| == |before| && Filled(b, n, ps, result, |ps|)
    && (forall j :: 0 <= j < |ps| && Threshold(n, ps[j]) > Total(b) ==>
         if Reopened(b, n, ps, result, j) then IsHighest(b, result[j]) else result[j] == before[j])
    && (if |ps| == 0 then offset == low
        else if Threshold(n, ps[|ps| - 1]) <= Total(b) then offset == result[|ps| - 1]
        else IsHighest(b, offset))
  }

  lemma PassReported(b: seq<nat>, n: nat, ps: seq<real>, before: seq<nat>, result: seq<nat>, low: nat, offset: nat)
    requires IsLowest(b, low) && Passed(b, n, ps, before, result, low, offset)
    ensures |ps| <= |result| == |before| && AllReported(b, n, ps, before, result, low, offset)
  {
    forall j | 0 <= j < |ps| && Holds(b, Rank(Threshold(n, ps[j])), result[j]) ensures Threshold(n, ps[j]) <= Total(b) {
      PrefixMono(b, result[j] + 1, |b|);
    }
  }

  lemma ScannedToEnd(b: seq<nat>, low: nat, offset: nat, rcount: nat)
    requires Scanned(b, low, |b|, offset, rcount)
    ensures IsHighest(b, offset) && rcount == Total(b)
  {
    forall i | offset < i < |b| ensures b[i] == 0 {
      PrefixMono(b, offset + 1, i);
      PrefixMono(b, i + 1, |b|);
    }
  }

  /** The results from `k` on are as before, and one among the others that was not reached has the last bucket in use. */
  ghost predicate Left(b: seq<nat>, n: nat, ps: seq<real>, before: seq<nat>, result: seq<nat>, k: nat) {
    && |ps| <= |result| == |before| && k <= |ps| && (forall j :: k <= j < |result| ==> result[j] == before[j])
    && (forall j :: 0 <= j < k && Threshold(n, ps[j]) > Total(b) ==> Reopened(b, n, ps, result, j) && IsHighest(b, result[j]))
  }

  /** The loop state between two fills: the next threshold is not reached yet. */
  ghost predicate Between(b: seq<nat>, n: nat, ps: seq<real>, before: seq<nat>, result: seq<nat>, low: nat,
                          curr: nat, offset: nat, rcount: nat, k: nat, threshold: int)
  {
    && Scanned(b, low, curr, offset, rcount) && Filled(b, n, ps, result, k) && Left(b, n, ps, before, result, k)
    && (k < |ps| ==> threshold == Threshold(n, ps[k]))
    && (if k == 0 then curr == low && rcount == 0 && offset == low
        else offset == result[k - 1] && (k < |ps| ==> rcount < threshold) &&
             (curr == if Threshold(n, ps[k - 1]) > Total(b) then |b| else if Threshold(n, ps[k - 1]) < 1 then low else offset + 1))
  }

  method Pass(pp: Profile, b: array<nat>, n: nat, low: nat) returns (curr: nat, offset: nat)
    requires pp.count <= pp.percentile.Length == pp.result.Length && Accepted(pp.percentile[..pp.count])
    requires IsLowest(b[..], low) && pp.result != b
    modifies pp.result
    ensures Passed(b[..], n, pp.percentile[..pp.count], old(pp.result[..]), pp.result[..], low, offset)
  {
    hide Prefix, Threshold, Holds, Between, Passed, Filled, Scanned, Accepted, Left;
    ghost var ps, before := pp.percentile[..pp.count], pp.result[..];
    var rcount: nat, k: nat := 0, 0;
    curr, offset := low, low;
    // the source reads the first percentile even when there is none, and then does not use it
    var threshold := if pp.percentile.Length > 0 then Threshold(n, pp.percentile[0]) else 0;
    AtStart(b[..], n, ps, before, low, threshold);
    while curr < b.Length && k < pp.count
      invariant k <= pp.count && curr <= b.Length
      invariant Between(b[..], n, ps, before, pp.result[..], low, curr, offset, rcount, k, threshold)
      decreases pp.count - k
    {
      BeforeScan(b[..], n, ps, before, pp.result[..], low, curr, offset, rcount, k, threshold);
      curr, offset, rcount := ScanTo(b, threshold, low, curr, offset, rcount);
      k, threshold := Fill(pp, b, n, k, threshold, low, curr, offset, rcount, before);
    }
    AtEnd(b[..], n, ps, before, pp.result[..], low, curr, offset, rcount, k, threshold);
  }

  lemma AtStart(b: seq<nat>, n: nat, ps: seq<real>, result: seq<nat>, low: nat, threshold: int)
    requires IsLowest(b, low) && (|ps| > 0 ==> threshold == Threshold(n, ps[0])) && |ps| <= |result|
    ensures Between(b, n, ps, result, result, low, low, low, 0, 0, threshold)
  {}

  lemma BeforeScan(b: seq<nat>, n: nat, ps: seq<real>, before: seq<nat>, result: seq<nat>, low: nat,
                   curr: nat, offset: nat, rcount: nat, k: nat, threshold: int)
    requires curr < |b| && Between(b, n, ps, before, result, low, curr, offset, rcount, k, threshold) && k < |ps|
    ensures Scanned(b, low, curr, offset, rcount) && (rcount < threshold || curr == low)
    ensures Filled(b, n, ps, result, k) && Left(b, n, ps, before, result, k) && threshold == Threshold(n, ps[k])
    ensures |ps| <= |result| && Reopened(b, n, ps, result, k)
  {}

  lemma AtEnd(b: seq<nat>, n: nat, ps: seq<real>, before: seq<nat>, result: seq<nat>, low: nat,
              curr: nat, offset: nat, rcount: nat, k: nat, threshold: int)
    requires Between(b, n, ps, before, result, low, curr, offset, rcount, k, threshold)
    requires Accepted(ps) && |ps| <= |result| && (k == |ps| || curr == |b|) && (curr == |b| || k <= |ps|)
    ensures Passed(b, n, ps, before, result, low, offset)
  {
    hide Holds, Threshold, Prefix;
    if curr == |b| { ScannedToEnd(b, low, offset, rcount); }
    if k < |ps| {
      forall j | k <= j < |ps| ensures Threshold(n, ps[j]) > Total(b) { ThresholdMono(n, ps[k], ps[j]); }
    }
  }

  /** One bucket may serve several percentiles. */
  method Fill(pp: Profile, b: array<nat>, n: nat, k0: nat, threshold0: int,
              ghost low: nat, ghost curr: nat, offset: nat, rcount: nat, ghost before: seq<nat>)
    returns (k: nat, threshold: int)
    requires k0 < pp.count <= pp.percentile.Length == pp.result.Length && pp.result != b
    requires Accepted(pp.percentile[..pp.count])
    requires Scanned(b[..], low, curr, offset, rcount) && threshold0 == Threshold(n, pp.percentile[k0])
    requires threshold0 <= Total(b[..]) ==> threshold0 <= rcount && Holds(b[..], Rank(threshold0), offset)
    requires threshold0 > Total(b[..]) ==> curr == b.Length && rcount == Total(b[..])
    requires threshold0 <= Total(b[..]) ==> curr == if threshold0 < 1 then low else offset + 1
    requires Left(b[..], n, pp.percentile[..pp.count], before, pp.result[..], k0)
    requires Reopened(b[..], n, pp.percentile[..pp.count], pp.result[..], k0)
    requires Filled(b[..], n, pp.percentile[..pp.count], pp.result[..], k0)
    modifies pp.result
    ensures k0 < k <= pp.count
    ensures Between(b[..], n, pp.percentile[..pp.count], before, pp.result[..], low, curr, offset, rcount, k, threshold)
  {
    hide Threshold, Prefix, Filled, Left, Holds, Reopened, Accepted;
    ghost var total, ps := Total(b[..]), pp.percentile[..pp.count];
    k, threshold := k0, threshold0;
    while true
      invariant k0 <= k < pp.count && threshold == Threshold(n, ps[k])
      invariant threshold <= total ==> threshold <= rcount && Holds(b[..], Rank(threshold), offset)
      invariant threshold > total ==> curr == b.Length && rcount == total && Reopened(b[..], n, ps, pp.result[..], k)
      invariant threshold <= total ==> curr == if threshold < 1 then low else offset + 1
      invariant Filled(b[..], n, ps, pp.result[..], k) && Left(b[..], n, ps, before, pp.result[..], k)
      decreases pp.count - k
    {
      if threshold > total { ScannedToEnd(b[..], low, offset, rcount); }
      OneFilled(b[..], n, ps, before, pp.result[..], k, offset);
      pp.result[k] := offset;
      ghost var last := threshold;
      k := k + 1;
      if k == pp.count { break; }
      threshold := Threshold(n, pp.percentile[k]);
      AcceptedRise(n, ps, k);
      ScannedBelow(b[..], low, curr, offset, rcount);
      if threshold > rcount { break; }
      SameBatch(b[..], low, curr, offset, rcount, last, threshold);
    }
  }

  lemma AcceptedRise(n: nat, ps: seq<real>, k: nat)
    requires Accepted(ps) && 0 < k < |ps|
    ensures Threshold(n, ps[k - 1]) <= Threshold(n, ps[k])
  {
    ThresholdMono(n, ps[k - 1], ps[k]);
  }

  /** A later threshold that is reached already is in the same bucket. */
  lemma SameBatch(b: seq<nat>, low: nat, curr: nat, offset: nat, rcount: nat, last: int, threshold: int)
    requires Scanned(b, low, curr, offset, rcount) && last <= threshold <= rcount
    requires last <= Total(b) ==> last <= rcount && Holds(b, Rank(last), offset) && curr == if last < 1 then low else offset + 1
    requires last > Total(b) ==> rcount == Total(b)
    ensures Holds(b, Rank(threshold), offset) && curr == if threshold < 1 then low else offset + 1
  {
    PrefixMono(b, curr, |b|);
  }

  lemma OneFilled(b: seq<nat>, n: nat, ps: seq<real>, before: seq<nat>, result: seq<nat>, k: nat, offset: nat)
    requires k < |ps| && Filled(b, n, ps, result, k) && Left(b, n, ps, before, result, k)
    requires Threshold(n, ps[k]) <= Total(b) ==> Holds(b, Rank(Threshold(n, ps[k])), offset)
    requires Threshold(n, ps[k]) > Total(b) ==> |ps| <= |result| && Reopened(b, n, ps, result, k) && IsHighest(b, offset)
    ensures k < |result| && Filled(b, n, ps, result[k := offset], k + 1) && Left(b, n, ps, before, result[k := offset], k + 1)
  {
    hide Holds, Threshold, Prefix;
  }

  lemma ScannedBelow(b: seq<nat>, low: nat, curr: nat, offset: nat, rcount: nat)
    requires Scanned(b, low, curr, offset, rcount)
    ensures rcount <= Total(b)
  {
    PrefixMono(b, curr, |b|);
  }

  /** Where the buckets reach a rank, one pass over all percentiles and a report of that one alone agree. */
  lemma MultiAgrees(b: seq<nat>, n: nat, ps: seq<real>, before: seq<nat>, result: seq<nat>, min: nat, max: nat, j: nat, value: nat)
    requires |ps| <= |result| == |before| && AllReported(b, n, ps, before, result, min, max) && j < |ps|
    requires Reported(b, Rank(Threshold(n, ps[j])), value) && Threshold(n, ps[j]) <= Total(b)
    ensures result[j] == value
  {
    hide Threshold, Prefix;
    LowestInTotal(b, min);
    HoldsUnique(b, Rank(Threshold(n, ps[j])), result[j], value);
  }

  lemma LowestInTotal(b: seq<nat>, low: nat)
    requires IsLowest(b, low)
    ensures Total(b) >= 1
  {
    PrefixMono(b, low + 1, |b|);
  }

  /** Both reports, when all records are in the buckets: the results are equal for every percentile from 0 to 100. */
  method ReportBoth(pp: Profile, h: Histo, j: nat) returns (alone: nat)
    requires h.Valid() && h.Faithful() && h.nrecord > 0
    requires pp.count <= pp.percentile.Length == pp.result.Length && Accepted(pp.percentile[..pp.count])
    requires pp.result != h.buckets && j < pp.count && 0.0 <= pp.percentile[j] <= 100.0
    modifies pp`min, pp`max, pp.result
    ensures pp.result[j] == alone
  {
    hide Threshold, Prefix, AllReported, Reported, Truncates, Shape.Valid, Shape.NBucket, Greater;
    ghost var b, ps, before := h.buckets[..], pp.percentile[..pp.count], pp.result[..];
    NotOut(pp.percentile[j]);
    ThresholdBounds(h.nrecord, pp.percentile[j]);
    var _, v := Report(h, pp.percentile[j]);
    var _ := ReportMulti(pp, h);
    assert h.buckets[..] == b && pp.percentile[..pp.count] == ps && ps[j] == pp.percentile[j];
    MultiAgrees(b, h.nrecord, ps, before, pp.result[..], pp.min, pp.max, j, v);
    alone := v;
  }

  lemma NotOut(p: real)
    requires 0.0 <= p <= 100.0
    ensures !Greater(p, 100.0) && !Greater(0.0, p)
  {}

  /** The reported max is the highest bucket in use exactly when the last rank asked for lies in it. */
  lemma MaxIff(b: seq<nat>, t: int, i: nat, top: nat)
    requires Holds(b, t, i) && IsHighest(b, top)
    ensures i == top <==> t > Total(b) - b[top]
  {
    AllBelow(b, top, |b|);
    assert Prefix(b, top + 1) == Prefix(b, top) + b[top];
    if t > Prefix(b, top) {
      PrefixMono(b, i + 1, |b|);
      HoldsUnique(b, t, i, top);
    }
  }

  /** One record in each of two buckets: the 50th percentile alone leaves max at the lower one. */
  lemma MaxMissed()
    ensures Holds([1, 1], Rank(Threshold(2, 50.0)), 0) && IsHighest([1, 1], 1)
  {
    assert Threshold(2, 50.0) == 1;
    assert Prefix([1, 1], 1) == Prefix([1, 1], 0) + 1;
  }

  lemma {:induction false} AllBelow(b: seq<nat>, top: nat, k: nat)
    requires IsHighest(b, top) && top < k <= |b|
    ensures Prefix(b, k) == Prefix(b, top + 1)
    decreases k
  {
    if k > top + 1 { AllBelow(b, top, k - 1); }
  }

  /** So a profile that ends with 100 reports the true maximum. */
  lemma MaxWithHundred(b: seq<nat>, n: nat, i: nat, top: nat)
    requires n == Total(b) > 0 && IsHighest(b, top) && Holds(b, Rank(Threshold(n, 100.0)), i)
    ensures i == top
  {
    ThresholdBounds(n, 100.0);
    MaxIff(b, Rank(Threshold(n, 100.0)), i, top);
  }
}
