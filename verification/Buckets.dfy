/** Bucket arithmetic of the histogram (src/stats/cc_histogram.c, include/cc_histogram.h). */
module Buckets {
  import opened Arith
  import opened Bytes

  /** The parameters of a histogram: resolution 2^m up to 2^r, values below 2^n. */
  datatype Shape = Shape(m: nat, r: nat, n: nat) {
    /** What histo_u32_create accepts, and for which its shifts of an int have a value. */
    ghost predicate Valid() { m < r <= n && n <= 30 }

    function G(): (g: nat)
      requires m < r
      ensures g > 0
    {
      Pow2(r - m - 1)
    }

    function N(): nat { Pow2(n) - 1 }

    function NBucket(): nat
      requires m < r <= n
    {
      (n - r + 2) * G()
    }
  }

  const INT_MAX: nat := 0x7FFF_FFFF

  /** histo_u32_create accepts n up to 64, but shifts the int 1 by n: that has a value only up to 30. */
  lemma ShiftsDefinedIff(s: Shape)
    requires s.m < s.r <= s.n <= 64
    ensures (Pow2(s.m) <= INT_MAX && Pow2(s.r) <= INT_MAX && Pow2(s.n) <= INT_MAX && s.G() <= INT_MAX) <==> s.Valid()
  {
    Pow2Mono(s.m, s.n);
    Pow2Mono(s.r, s.n);
    Pow2Mono(s.r - s.m - 1, s.n);
    Pow2Thirty();
    if s.n <= 30 { Pow2Mono(s.n, 30); } else { Pow2Mono(31, s.n); assert Pow2(31) == 2 * Pow2(30); }
  }

  /** n = 31 is accepted by histo_u32_create, and 1 << 31 is no int. */
  lemma ThirtyOneUndefined()
    ensures var s := Shape(0, 1, 31); s.m < s.r <= s.n <= 64 && Pow2(s.n) > INT_MAX
  {
    hide Pow2;
    ShiftsDefinedIff(Shape(0, 1, 31));
    Pow2Thirty();
    Pow2Mono(0, 30);
    Pow2Mono(1, 30);
  }

  /** Index of the highest bit set, 0 for 0. */
  function HighBit(v: nat): nat { if v <= 1 then 0 else 1 + HighBit(v / 2) }

  lemma {:induction false} HighBitBounds(v: nat)
    requires v > 0
    ensures Pow2(HighBit(v)) <= v < Pow2(HighBit(v) + 1)
    decreases v
  {
    if v > 1 { HighBitBounds(v / 2); }
  }

  /** _bucket_offset. */
  function Offset(s: Shape, value: nat): (o: nat)
    requires s.m < s.r
  {
    var h := HighBit(value);
    if h < s.r then
      DivNat(value, Pow2(s.m));
      value / Pow2(s.m)
    else ScaledOffset(s, value, h)
  }

  function ScaledOffset(s: Shape, value: nat, h: nat): nat
    requires s.m < s.r <= h
  {
    var d := h - s.r + 1;
    var x: nat := if value < Pow2(h) then 0 else value - Pow2(h);
    MulNat(d + 1, s.G());
    DivNat(x, Pow2(s.m + d));
    (d + 1) * s.G() + x / Pow2(s.m + d)
  }

  /** First value of group `g`, and the width of its buckets; a group has G buckets. */
  function Base(s: Shape, g: nat): nat
    requires s.m < s.r
  {
    if g == 0 then 0 else Pow2(s.r + g - 2)
  }

  function Width(s: Shape, g: nat): (w: nat)
    ensures w > 0
  {
    if g == 0 then Pow2(s.m) else Pow2(s.m + g - 1)
  }

  /** bucket_low. */
  function Low(s: Shape, i: nat): nat
    requires s.m < s.r
  {
    DivNat(i, s.G());
    var g := i / s.G();
    MulNat(Width(s, g), i % s.G());
    Base(s, g) + Width(s, g) * (i % s.G())
  }

  /** bucket_high. */
  function High(s: Shape, i: nat): nat
    requires s.m < s.r
  {
    DivNat(i, s.G());
    var g := i / s.G();
    MulNext(Width(s, g), i % s.G());
    Base(s, g) + Width(s, g) * (i % s.G() + 1) - 1
  }

  /** The counts, on 64 bits, of the shifts that bucket_low and bucket_high evaluate for every group. */
  function BaseShift(s: Shape, g: nat): nat { (s.r + g - 2) % TWO64 }

  function WidthShift(s: Shape, g: nat): nat { (s.m + g - 1) % TWO64 }

  /**
   * The first group has its own formula, but the other one is evaluated too, and multiplied by 0. The int
   * shifts in it have a value if and only if the resolution is above 1 or the bucket is past the first group.
   */
  lemma BoundShiftsDefinedIff(s: Shape, i: nat)
    requires s.Valid() && i < s.NBucket()
    ensures var g := i / s.G();
            0 <= g && (BaseShift(s, g) <= 30 && WidthShift(s, g) <= 30 <==> s.m > 0 || i >= s.G())
  {
    hide Shape.G;
    GroupBelow(s, i);
    SmallShift(s.r + i / s.G() - 2);
    SmallShift(s.m + i / s.G() - 1);
  }

  lemma GroupBelow(s: Shape, i: nat)
    requires s.Valid() && i < s.NBucket()
    ensures 0 <= i / s.G() <= s.n - s.r + 1
    ensures i / s.G() > 0 <==> i >= s.G()
  {
    hide Shape.G;
    DivNat(i, s.G());
    DivBelow(i, s.G(), s.n - s.r + 2);
    DivFacts(i, s.G());
    if i / s.G() > 0 { MulLe(1, i / s.G(), s.G()); }
  }

  lemma SmallShift(x: int)
    requires -1 <= x <= 60
    ensures x % TWO64 <= 30 <==> 0 <= x <= 30
  {}

  // ------------------------------------------------------------------
  // The buckets partition [0, N]
  // ------------------------------------------------------------------

  /** A group ends where the next begins. */
  lemma GroupEnd(s: Shape, g: nat)
    requires s.m < s.r
    ensures Base(s, g) + Width(s, g) * s.G() == Base(s, g + 1)
  {
    if g == 0 {
      Pow2Add(s.m, s.r - s.m - 1);
    } else {
      Pow2Add(s.m + g - 1, s.r - s.m - 1);
      assert s.m + g - 1 + (s.r - s.m - 1) == s.r + g - 2;
    }
  }

  lemma At(s: Shape, g: nat, b: nat)
    requires s.m < s.r && b < s.G()
    ensures 0 <= g * s.G()
    ensures Low(s, g * s.G() + b) == Base(s, g) + Width(s, g) * b
    ensures High(s, g * s.G() + b) == Base(s, g) + Width(s, g) * (b + 1) - 1
  {
    MulNat(g, s.G());
    DivModUnique(g * s.G() + b, s.G(), g, b);
  }

  /** Buckets are adjacent. */
  lemma Adjacent(s: Shape, i: nat)
    requires s.m < s.r
    ensures High(s, i) + 1 == Low(s, i + 1)
    ensures Low(s, i) <= High(s, i)
  {
    hide Pow2, Base, Width, Shape.G;
    var G := s.G();
    var g, b := i / G, i % G;
    DivModNext(i, G);
    MulNext(Width(s, g), b);
    GroupEnd(s, g);
  }

  lemma FirstAndLast(s: Shape)
    requires s.m < s.r <= s.n
    ensures Low(s, 0) == 0 && s.NBucket() > 0 && High(s, s.NBucket() - 1) == s.N()
  {
    At(s, 0, 0);
    MulLe(1, s.n - s.r + 2, s.G());
    Adjacent(s, s.NBucket() - 1);
    At(s, s.n - s.r + 2, 0);
  }

  lemma {:induction false} Ordered(s: Shape, i: nat, j: nat)
    requires s.m < s.r && i < j
    ensures High(s, i) < Low(s, j)
    decreases j - i
  {
    Adjacent(s, i);
    if i + 1 < j {
      Adjacent(s, i + 1);
      Ordered(s, i + 1, j);
    }
  }

  /** Below 2^r all buckets have width 2^m, across the first two groups. */
  lemma LowFlat(s: Shape, i: nat)
    requires s.m < s.r && i < 2 * s.G()
    ensures Low(s, i) == i * Pow2(s.m) && High(s, i) == (i + 1) * Pow2(s.m) - 1
  {
    var G, M := s.G(), Pow2(s.m);
    Adjacent(s, i);
    if i < G {
      At(s, 0, i);
      Flat(M, G, 0, i);
    } else {
      At(s, 1, i - G);
      GroupEnd(s, 0);
      Flat(M, G, G, i - G);
    }
  }

  lemma Flat(M: nat, G: nat, a: nat, b: nat)
    ensures M * a + M * b == (a + b) * M && M * a + M * (b + 1) == (a + b + 1) * M
  {}

  lemma Contains(s: Shape, value: nat)
    requires s.m < s.r
    ensures Low(s, Offset(s, value)) <= value <= High(s, Offset(s, value))
  {
    if HighBit(value) < s.r { ContainsFlat(s, value); } else { ContainsScaled(s, value); }
  }

  lemma ContainsFlat(s: Shape, value: nat)
    requires s.m < s.r && HighBit(value) < s.r
    ensures Low(s, Offset(s, value)) <= value <= High(s, Offset(s, value))
  {
    hide Low, High, Pow2, Shape.G;
    var M := Pow2(s.m);
    var i := value / M;
    BelowFlat(s, value);
    DivBelow(value, M, 2 * s.G());
    LowFlat(s, i);
    DivFacts(value, M);
    SuccMul(i, M);
  }

  lemma BelowFlat(s: Shape, value: nat)
    requires s.m < s.r && HighBit(value) < s.r
    ensures value < 2 * s.G() * Pow2(s.m)
  {
    FlatRange(s);
    hide Pow2, Shape.G;
    MulComm(Pow2(s.m), 2 * s.G());
    if value > 0 { HighBitBounds(value); Pow2Mono(HighBit(value) + 1, s.r); }
  }

  lemma FlatRange(s: Shape)
    requires s.m < s.r
    ensures Pow2(s.r) == Pow2(s.m) * (2 * s.G())
  {
    Pow2Add(s.m, s.r - s.m);
    assert Pow2(s.r - s.m) == 2 * Pow2(s.r - s.m - 1);
  }

  lemma ContainsScaled(s: Shape, value: nat)
    requires s.m < s.r <= HighBit(value)
    ensures Low(s, Offset(s, value)) <= value <= High(s, Offset(s, value))
  {
    hide Low, High, Pow2, Shape.G, Offset, HighBit, Base, Width;
    var g, q := ScaledParts(s, value);
    At(s, g, q);
  }

  /** Group and place in it of a value past the flat part. */
  lemma ScaledParts(s: Shape, value: nat) returns (g: nat, q: nat)
    requires s.m < s.r <= HighBit(value)
    ensures q < s.G() && Offset(s, value) == g * s.G() + q
    ensures Base(s, g) + Width(s, g) * q <= value <= Base(s, g) + Width(s, g) * (q + 1) - 1
  {
    hide Pow2, Shape.G, HighBit, Base, Width, ScaledOffset;
    var h := HighBit(value);
    NoBitInZero(value);
    HighBitBounds(value);
    ScaledGroup(s, h);
    g := h - s.r + 2;
    q := Quotient(value - Pow2(h), Pow2(s.m + g - 1), s.G());
    ScaledOffsetIs(s, value, h, q);
  }

  lemma NoBitInZero(v: nat)
    requires HighBit(v) > 0
    ensures v > 0
  {}

  lemma Quotient(x: nat, w: nat, G: nat) returns (q: nat)
    requires 0 < w && x < G * w
    ensures q == x / w && q < G && w * q <= x <= w * (q + 1) - 1
  {
    DivNat(x, w);
    q := x / w;
    DivBelow(x, w, G);
    InBucket(w, x);
  }

  lemma ScaledOffsetIs(s: Shape, value: nat, h: nat, q: nat)
    requires s.m < s.r <= h && Pow2(h) <= value && q == (value - Pow2(h)) / Pow2(s.m + h - s.r + 1)
    ensures ScaledOffset(s, value, h) == (h - s.r + 2) * s.G() + q
  {}

  lemma InBucket(w: nat, x: nat)
    requires w > 0
    ensures x / w >= 0 && w * (x / w) <= x <= w * (x / w + 1) - 1
  {
    DivFacts(x, w);
    DivNat(x, w);
    MulNext(w, x / w);
    MulComm(w, x / w);
  }

  lemma ScaledGroup(s: Shape, h: nat)
    requires s.m < s.r <= h
    ensures var d := h - s.r + 1;
            && Pow2(h) == s.G() * Pow2(s.m + d)
            && Pow2(h + 1) == 2 * Pow2(h)
            && Base(s, d + 1) == Pow2(h) && Width(s, d + 1) == Pow2(s.m + d)
  {
    var d := h - s.r + 1;
    Pow2Add(s.m + d, s.r - s.m - 1);
    assert s.m + d + (s.r - s.m - 1) == h;
  }

  /** Recordable values go to existing buckets, and each to the only one that contains it. */
  lemma Partition(s: Shape, value: nat, i: nat)
    requires s.m < s.r <= s.n && value <= s.N()
    ensures Offset(s, value) < s.NBucket()
    ensures Low(s, i) <= value <= High(s, i) <==> i == Offset(s, value)
  {
    var o := Offset(s, value);
    Contains(s, value);
    FirstAndLast(s);
    if o >= s.NBucket() { Ordered(s, s.NBucket() - 1, o); }
    if i < o { Ordered(s, i, o); } else if o < i { Ordered(s, o, i); }
  }

  lemma OffsetMonotone(s: Shape, v: nat, w: nat)
    requires s.m < s.r && v <= w
    ensures Offset(s, v) <= Offset(s, w)
  {
    Contains(s, v);
    Contains(s, w);
    if Offset(s, w) < Offset(s, v) { Ordered(s, Offset(s, w), Offset(s, v)); }
  }

  /** From 2^(r-1) on, a bucket's width is at most one G-th of its lowest value. */
  lemma Precision(s: Shape, i: nat)
    requires s.m < s.r && Pow2(s.r - 1) <= Low(s, i)
    ensures (High(s, i) - Low(s, i) + 1) * s.G() <= Low(s, i)
  {
    var g := i / s.G();
    PastFirstGroup(s, i);
    GroupDoubles(s, g);
    hide Pow2, Base, Width, Shape.G;
    MulNext(Width(s, g), i % s.G());
    GroupEnd(s, g);
  }

  lemma PastFirstGroup(s: Shape, i: nat)
    requires s.m < s.r && Pow2(s.r - 1) <= Low(s, i)
    ensures i / s.G() > 0
  {
    hide Pow2, Low, High, Shape.G;
    var G := s.G();
    if i < G {
      At(s, 1, 0);
      Ordered(s, i, G);
      Adjacent(s, i);
    } else {
      DivFacts(i, G);
    }
  }

  lemma GroupDoubles(s: Shape, g: nat)
    requires s.m < s.r && g > 0
    ensures Base(s, g + 1) == 2 * Base(s, g)
  {}
}
