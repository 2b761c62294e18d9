/** Filtering sequences. */
module Filters {
  import opened Bytes

  function Filter<T>(f: T -> bool, s: seq<T>): (r: seq<T>)
    ensures forall x <- r :: x in s && f(x)
    ensures |r| <= |s|
  {
    if s == [] then []
    else if f(s[|s| - 1]) then Filter(f, s[..|s| - 1]) + [s[|s| - 1]]
    else Filter(f, s[..|s| - 1])
  }

  lemma {:induction false} FilterMember<T>(f: T -> bool, s: seq<T>, x: T)
    requires x in s && f(x)
    ensures x in Filter(f, s)
  {
    if x != s[|s| - 1] { FilterMember(f, s[..|s| - 1], x); }
  }

  lemma {:induction false} FilterAppend<T>(f: T -> bool, s: seq<T>, x: T)
    ensures Filter(f, s + [x]) == Filter(f, s) + if f(x) then [x] else []
  {
    assert (s + [x])[..|s|] == s;
  }

  lemma {:induction false} FilterConcat<T>(f: T -> bool, a: seq<T>, b: seq<T>)
    ensures Filter(f, a + b) == Filter(f, a) + Filter(f, b)
  {
    if b == [] {
      assert a + b == a;
    } else {
      assert a + b == (a + b[..|b| - 1]) + [b[|b| - 1]];
      FilterConcat(f, a, b[..|b| - 1]);
      FilterAppend(f, a + b[..|b| - 1], b[|b| - 1]);
    }
  }

  lemma {:induction false} FilterSame<T>(f: T -> bool, g: T -> bool, q: seq<T>)
    requires forall e <- q :: f(e) <==> g(e)
    ensures Filter(f, q) == Filter(g, q)
  {
    if q != [] { FilterSame(f, g, q[..|q| - 1]); }
  }

  lemma {:induction false} FilterFilter<T>(f: T -> bool, g: T -> bool, h: T -> bool, q: seq<T>)
    requires forall e <- q :: h(e) <==> f(e) && g(e)
    ensures Filter(f, Filter(g, q)) == Filter(h, q)
  {
    if q != [] {
      var init, last := q[..|q| - 1], q[|q| - 1];
      FilterFilter(f, g, h, init);
      if g(last) { assert (Filter(g, init) + [last])[..|Filter(g, init)|] == Filter(g, init); }
    }
  }

  lemma {:induction false} FilterAll<T>(f: T -> bool, q: seq<T>)
    requires forall e <- q :: f(e)
    ensures Filter(f, q) == q
  {
    if q != [] { FilterAll(f, q[..|q| - 1]); }
  }

  lemma {:induction false} FilterNone<T>(f: T -> bool, q: seq<T>)
    requires forall e <- q :: !f(e)
    ensures Filter(f, q) == []
  {
    if q != [] { FilterNone(f, q[..|q| - 1]); }
  }

  function GoesTo<T>(dest: T -> Option<nat>, j: nat): T -> bool { (x: T) => dest(x) == Some(j) }

  /** Row `c` is emptied in order, each entry going to the end of the row `dest` names, or nowhere. */
  ghost predicate Rehomed<T>(before: seq<seq<T>>, after: seq<seq<T>>, c: nat, dest: T -> Option<nat>) {
    && |after| == |before| && c < |before| && after[c] == []
    && forall j :: 0 <= j < |before| && j != c ==> after[j] == before[j] + Filter(GoesTo(dest, j), before[c])
  }
}
