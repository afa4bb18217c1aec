/**
 The run-length-encoded table behind a semi-dense array of 32-bit values.

 A table is a sequence of runs. A run covers the contiguous values
 [value, value + count); its index is the number of recorded values in all
 earlier runs. The abstraction of a table is the set `Elems` of the values it
 records. This module defines the representation invariant and the facts about
 it that the queries and the insertion rely on.
 */
module RunTable {

  /** 2^32, one past the largest unsigned 32-bit value. */
  const U32Limit: int := 0x1_0000_0000

  /** 2^32 - 1, the largest unsigned 32-bit value. */
  const MaxU32: int := 0xFFFF_FFFF

  /** An unsigned 32-bit integer, the width of every field of a run. */
  type u32 = n: int | 0 <= n < 0x1_0000_0000

  /** One RLE entry: first value, number of values before the run, run length. */
  datatype Run = Run(value: u32, index: u32, count: u32)

  /** One past the last value the run covers. */
  function End(r: Run): int {
    r.value + r.count
  }

  function Last(s: seq<Run>): Run
    requires |s| > 0
  {
    s[|s| - 1]
  }

  /** `lo <= v < hi` as a named term: it gives the quantifier in `Interval` a trigger. */
  predicate Between(lo: int, v: int, hi: int) {
    lo <= v < hi
  }

  /** The integers in [lo, hi). */
  ghost function Interval(lo: int, hi: int): set<int> {
    set v: int | lo <= v < hi && Between(lo, v, hi)
  }

  /** The values one run covers. */
  ghost function Span(r: Run): set<int> {
    Interval(r.value, End(r))
  }

  /** The abstract set of recorded values: the union of all run spans. */
  ghost function Elems(s: seq<Run>): set<int>
  {
    if |s| == 0 then {} else Elems(s[..|s| - 1]) + Span(Last(s))
  }

  /** The sum of all run lengths. */
  ghost function Total(s: seq<Run>): int
  {
    if |s| == 0 then 0 else Total(s[..|s| - 1]) + Last(s).count
  }

  /** No run is empty. */
  ghost predicate Positive(s: seq<Run>) {
    forall i :: 0 <= i < |s| ==> s[i].count > 0
  }

  /** Every run ends strictly before any later run begins: runs neither touch nor overlap. */
  ghost predicate Separated(s: seq<Run>) {
    forall i, j :: 0 <= i < j < |s| ==> End(s[i]) < s[j].value
  }

  /** Every run end is itself a 32-bit value, so `value + count` never wraps. */
  ghost predicate Fits(s: seq<Run>) {
    forall i :: 0 <= i < |s| ==> End(s[i]) <= MaxU32
  }

  /** Each run's index is `base` plus the lengths of all runs before it. */
  ghost predicate Indexed(s: seq<Run>, base: int) {
    forall i {:trigger Total(s[..i])} :: 0 <= i < |s| ==> s[i].index == base + Total(s[..i])
  }

  /** A well-formed stretch of a table whose first run has index `base`. */
  ghost predicate Chain(s: seq<Run>, base: int) {
    Positive(s) && Separated(s) && Fits(s) && Indexed(s, base)
  }

  /** The representation invariant of a whole table. */
  ghost predicate Valid(s: seq<Run>) {
    Chain(s, 0)
  }

  /** The ordering invariant in neighbour form: each run ends before the next begins. */
  ghost predicate NeighboursApart(s: seq<Run>) {
    forall i :: 0 < i < |s| ==> End(s[i - 1]) < s[i].value
  }

  /** The index invariant in neighbour form: the first index is `base`, each next one adds the previous count. */
  ghost predicate IndexChain(s: seq<Run>, base: int) {
    && (|s| > 0 ==> s[0].index == base)
    && forall i :: 0 < i < |s| ==> s[i].index == s[i - 1].index + s[i - 1].count
  }

  lemma {:induction false} IntervalSize(lo: int, hi: int)
    requires lo <= hi
    ensures |Interval(lo, hi)| == hi - lo
    decreases hi - lo
  {
    if lo == hi {
      assert Interval(lo, hi) == {};
    } else {
      assert Interval(lo, hi) == Interval(lo, hi - 1) + {hi - 1};
      IntervalSize(lo, hi - 1);
    }
  }

  lemma ElemsSingle(r: Run)
    ensures Elems([r]) == Span(r)
    ensures Total([r]) == r.count
  {
    assert [r][..0] == [];
  }

  lemma {:induction false} ElemsConcat(a: seq<Run>, b: seq<Run>)
    ensures Elems(a + b) == Elems(a) + Elems(b)
    decreases |b|
  {
    if |b| == 0 {
      assert a + b == a;
    } else {
      var b' := b[..|b| - 1];
      assert (a + b)[..|a + b| - 1] == a + b';
      ElemsConcat(a, b');
    }
  }

  /** A prefix grows by the span and the count of the run that extends it. */
  lemma PrefixStep(s: seq<Run>, k: int)
    requires 0 < k <= |s|
    ensures Total(s[..k]) == Total(s[..k - 1]) + s[k - 1].count
    ensures Elems(s[..k]) == Elems(s[..k - 1]) + Span(s[k - 1])
  {
    assert s[..k][..k - 1] == s[..k - 1];
  }

  /** Two tables whose runs agree on value and count record the same set and the same total. */
  lemma {:induction false} ElemsIgnoresIndex(a: seq<Run>, b: seq<Run>)
    requires |a| == |b|
    requires forall i :: 0 <= i < |a| ==> a[i].value == b[i].value && a[i].count == b[i].count
    ensures Elems(a) == Elems(b)
    ensures Total(a) == Total(b)
    decreases |a|
  {
    if |a| > 0 {
      ElemsIgnoresIndex(a[..|a| - 1], b[..|b| - 1]);
    }
  }

  /** Every recorded value lies between the first run's start and the last run's end. */
  lemma {:induction false} ElemsBounds(s: seq<Run>)
    requires Positive(s) && Separated(s) && |s| > 0
    ensures forall v :: v in Elems(s) ==> s[0].value <= v < End(Last(s))
    ensures s[0].value <= Last(s).value
    decreases |s|
  {
    var init := s[..|s| - 1];
    if |init| > 0 {
      ElemsBounds(init);
      assert Last(init) == s[|s| - 2];
    }
  }

  /** Any slice of non-empty, separated runs is again non-empty and separated. */
  lemma OrderedSlice(s: seq<Run>, lo: int, hi: int)
    requires Positive(s) && Separated(s) && 0 <= lo <= hi <= |s|
    ensures Positive(s[lo..hi]) && Separated(s[lo..hi])
  {
    var t := s[lo..hi];
    forall i, j | 0 <= i < j < |t|
      ensures End(t[i]) < t[j].value
    {
      assert t[i] == s[lo + i] && t[j] == s[lo + j];
    }
  }

  /** The recorded set splits around any run. */
  lemma ElemsSplit(s: seq<Run>, n: int)
    requires 0 <= n < |s|
    ensures Elems(s) == Elems(s[..n]) + Span(s[n]) + Elems(s[n + 1..])
  {
    assert s == s[..n] + [s[n]] + s[n + 1..];
    ElemsConcat(s[..n] + [s[n]], s[n + 1..]);
    ElemsConcat(s[..n], [s[n]]);
    ElemsSingle(s[n]);
  }

  /** Every value recorded before run `n` lies below the end of run `n - 1`. */
  lemma ElemsBefore(s: seq<Run>, n: int)
    requires Positive(s) && Separated(s) && 0 <= n <= |s|
    ensures forall v :: v in Elems(s[..n]) ==> n > 0 && v < End(s[n - 1])
  {
    if n > 0 {
      OrderedSlice(s, 0, n);
      ElemsBounds(s[..n]);
      assert Last(s[..n]) == s[n - 1];
    } else {
      assert s[..n] == [];
    }
  }

  /** Every value recorded from run `n` on lies at or above the start of run `n`. */
  lemma ElemsFrom(s: seq<Run>, n: int)
    requires Positive(s) && Separated(s) && 0 <= n <= |s|
    ensures var after := s[n..]; forall v :: v in Elems(after) ==> n < |s| && s[n].value <= v
  {
    if n < |s| {
      OrderedSlice(s, n, |s|);
      assert s[n..|s|] == s[n..];
      ElemsBounds(s[n..]);
    } else {
      assert s[n..] == [];
    }
  }

  /** Splitting a table at run `n`: everything before is below `s[n]`, everything after above it. */
  lemma Decompose(s: seq<Run>, n: int)
    requires Positive(s) && Separated(s) && 0 <= n < |s|
    ensures Elems(s) == Elems(s[..n]) + Span(s[n]) + Elems(s[n + 1..])
    ensures forall v :: v in Elems(s[..n]) ==> n > 0 && v < End(s[n - 1])
    ensures var after := s[n + 1..]; forall v :: v in Elems(after) ==> n + 1 < |s| && s[n + 1].value <= v
  {
    ElemsSplit(s, n);
    ElemsBefore(s, n);
    ElemsFrom(s, n + 1);
  }

  /** Disjoint runs: the number of recorded values is the sum of the run lengths. */
  lemma {:induction false} ElemsCard(s: seq<Run>)
    requires Positive(s) && Separated(s)
    ensures |Elems(s)| == Total(s)
    decreases |s|
  {
    if |s| > 0 {
      var init := s[..|s| - 1];
      ElemsCard(init);
      IntervalSize(Last(s).value, End(Last(s)));
      if |init| > 0 {
        ElemsBounds(init);
        assert Last(init) == s[|s| - 2];
      }
      assert Elems(init) * Span(Last(s)) == {};
    }
  }

  /** The runs fit inside [s[0].value, End(Last(s))), so their lengths add up to at most its width. */
  lemma {:induction false} TotalWithinEnd(s: seq<Run>)
    requires Positive(s) && Separated(s) && |s| > 0
    ensures Total(s) <= End(Last(s)) - s[0].value
    decreases |s|
  {
    var init := s[..|s| - 1];
    if |init| > 0 {
      TotalWithinEnd(init);
      assert Last(init) == s[|s| - 2];
      assert init[0] == s[0];
    }
  }

  /** The last index plus the last count is the number of values recorded from `base` on. */
  lemma LastIndexIsTotal(s: seq<Run>, base: int)
    requires Indexed(s, base) && |s| > 0
    ensures Last(s).index + Last(s).count == base + Total(s)
  {
    PrefixStep(s, |s|);
    assert s[..|s|] == s;
  }

  /** In a valid table a run's index plus its count never exceeds its end. */
  lemma IndexRoom(s: seq<Run>)
    requires Valid(s)
    ensures forall i :: 0 <= i < |s| ==> s[i].index + s[i].count <= End(s[i])
  {
    forall i | 0 <= i < |s|
      ensures s[i].index + s[i].count <= End(s[i])
    {
      var p := s[..i + 1];
      PrefixStep(s, i + 1);
      assert Last(p) == s[i];
      TotalWithinEnd(p);
    }
  }

  lemma {:induction false} TotalConcat(a: seq<Run>, b: seq<Run>)
    ensures Total(a + b) == Total(a) + Total(b)
    decreases |b|
  {
    if |b| > 0 {
      var b' := b[..|b| - 1];
      assert (a + b)[..|a + b| - 1] == a + b';
      TotalConcat(a, b');
    } else {
      assert a + b == a;
    }
  }

  lemma IndexedPrefix(s: seq<Run>, base: int, k: int)
    requires Indexed(s, base) && 0 <= k <= |s|
    ensures Indexed(s[..k], base)
  {
    var pre := s[..k];
    forall i | 0 <= i < |pre|
      ensures pre[i].index == base + Total(pre[..i])
    {
      assert pre[..i] == s[..i];
    }
  }

  lemma IndexedSuffix(s: seq<Run>, base: int, k: int)
    requires Indexed(s, base) && 0 <= k <= |s|
    ensures Indexed(s[k..], base + Total(s[..k]))
  {
    var pre, suf := s[..k], s[k..];
    forall i | 0 <= i < |suf|
      ensures suf[i].index == base + Total(pre) + Total(suf[..i])
    {
      assert s[..k + i] == pre + suf[..i];
      TotalConcat(pre, suf[..i]);
    }
  }

  /** A slice of a chain is a chain; the suffix starts after the prefix's total. */
  lemma ChainSlice(s: seq<Run>, base: int, k: int)
    requires Chain(s, base) && 0 <= k <= |s|
    ensures Chain(s[..k], base)
    ensures Chain(s[k..], base + Total(s[..k]))
  {
    OrderedSlice(s, 0, k);
    OrderedSlice(s, k, |s|);
    assert s[0..k] == s[..k];
    assert s[k..|s|] == s[k..];
    IndexedPrefix(s, base, k);
    IndexedSuffix(s, base, k);
  }

  lemma SeparatedJoin(a: seq<Run>, b: seq<Run>)
    requires Positive(a) && Separated(a) && Separated(b)
    requires |a| > 0 && |b| > 0 ==> End(Last(a)) < b[0].value
    ensures Separated(a + b)
  {
    var c := a + b;
    if |a| > 0 {
      ElemsBounds(a);
    }
    forall i, j | 0 <= i < j < |c|
      ensures End(c[i]) < c[j].value
    {
      if i < |a| <= j {
        assert End(a[i]) <= End(Last(a)) by {
          if i < |a| - 1 {
            assert End(a[i]) < a[|a| - 1].value;
          }
        }
        assert b[0].value <= b[j - |a|].value by {
          if j > |a| {
            assert End(b[0]) < b[j - |a|].value;
          }
        }
      }
    }
  }

  lemma IndexedJoin(a: seq<Run>, b: seq<Run>, base: int)
    requires Indexed(a, base) && Indexed(b, base + Total(a))
    ensures Indexed(a + b, base)
  {
    var c := a + b;
    forall i | 0 <= i < |c|
      ensures c[i].index == base + Total(c[..i])
    {
      if i < |a| {
        assert c[..i] == a[..i];
      } else {
        assert c[..i] == a + b[..i - |a|];
        TotalConcat(a, b[..i - |a|]);
      }
    }
  }

  /** Two chains glue into one when the second starts where the first left off. */
  lemma ChainJoin(a: seq<Run>, b: seq<Run>, base: int)
    requires Chain(a, base)
    requires Chain(b, base + Total(a))
    requires |a| > 0 && |b| > 0 ==> End(Last(a)) < b[0].value
    ensures Chain(a + b, base)
  {
    SeparatedJoin(a, b);
    IndexedJoin(a, b, base);
  }

  /** Given non-empty runs, the pairwise ordering is the same as the neighbour ordering. */
  lemma {:induction false} SeparatedIffNeighboursApart(s: seq<Run>)
    requires Positive(s)
    ensures Separated(s) <==> NeighboursApart(s)
    decreases |s|
  {
    if |s| > 1 {
      var init := s[..|s| - 1];
      SeparatedIffNeighboursApart(init);
      if NeighboursApart(s) {
        assert NeighboursApart(init);
        forall i, j | 0 <= i < j < |s|
          ensures End(s[i]) < s[j].value
        {
          if j < |s| - 1 {
            assert End(init[i]) < init[j].value;
          } else if i < j - 1 {
            assert End(init[i]) < init[j - 1].value;
          }
        }
      }
    }
  }

  /** The prefix-sum form of the index invariant is the same as the neighbour form. */
  lemma IndexedIffIndexChain(s: seq<Run>, base: int)
    ensures Indexed(s, base) <==> IndexChain(s, base)
  {
    if |s| > 0 {
      assert s[..0] == [];
      assert Total(s[..0]) == 0;
    }
    if Indexed(s, base) {
      forall i | 0 < i < |s|
        ensures s[i].index == s[i - 1].index + s[i - 1].count
      {
        PrefixStep(s, i);
      }
    }
    if IndexChain(s, base) {
      IndexChainPrefix(s, base, |s|);
    }
  }

  lemma {:induction false} IndexChainPrefix(s: seq<Run>, base: int, k: int)
    requires IndexChain(s, base) && 0 <= k <= |s|
    ensures forall i :: 0 <= i < k ==> s[i].index == base + Total(s[..i])
    decreases k
  {
    if k > 0 {
      IndexChainPrefix(s, base, k - 1);
      if k > 1 {
        PrefixStep(s, k - 1);
      } else {
        assert s[..0] == [];
      }
    }
  }

  /** A non-empty chain records its first value. */
  lemma FirstValueRecorded(s: seq<Run>)
    requires Positive(s) && Separated(s) && |s| > 0
    ensures s[0].value in Elems(s)
  {
    Decompose(s, 0);
  }

  /** Dropping the first run removes exactly its span from the recorded set. */
  lemma DropFirst(s: seq<Run>)
    requires Positive(s) && Separated(s) && |s| > 0
    ensures Elems(s[1..]) == Elems(s) - Span(s[0])
  {
    Decompose(s, 0);
    assert s[..0] == [];
  }

  /** Two chains with the same start index and the same recorded set begin with the same run. */
  lemma FirstRunDetermined(a: seq<Run>, b: seq<Run>, base: int)
    requires Chain(a, base) && Chain(b, base) && |a| > 0 && |b| > 0
    requires Elems(a) == Elems(b)
    ensures a[0] == b[0]
  {
    Decompose(a, 0);
    Decompose(b, 0);
    ElemsBounds(a);
    ElemsBounds(b);
    assert a[..0] == [];
    assert b[..0] == [];
    assert Total(a[..0]) == 0 && Total(b[..0]) == 0;
    assert a[0].value in Elems(b);
    assert b[0].value in Elems(a);
    assert End(a[0]) !in Elems(a);
    assert End(b[0]) !in Elems(b);
    assert End(a[0]) !in Span(b[0]);
    assert End(b[0]) !in Span(a[0]);
  }

  /** Two chains recording the same set share their first run, and their remainders record the same set. */
  lemma SameFirstRun(a: seq<Run>, b: seq<Run>, base: int)
    requires Chain(a, base) && Chain(b, base) && |a| > 0 && |b| > 0
    requires Elems(a) == Elems(b)
    ensures a[0] == b[0]
    ensures Chain(a[1..], base + a[0].count) && Chain(b[1..], base + a[0].count)
    ensures Elems(a[1..]) == Elems(b[1..])
  {
    FirstRunDetermined(a, b, base);
    DropFirst(a);
    DropFirst(b);
    ChainSlice(a, base, 1);
    ChainSlice(b, base, 1);
    ElemsSingle(a[0]);
    assert a[..1] == [a[0]];
    assert b[..1] == [b[0]];
  }

  lemma SameHeadAndTail(a: seq<Run>, b: seq<Run>)
    requires |a| > 0 && |b| > 0 && a[0] == b[0] && a[1..] == b[1..]
    ensures a == b
  {
    assert a == [a[0]] + a[1..];
    assert b == [b[0]] + b[1..];
  }

  /**
   A valid table is determined by the set it records: the maximal runs of a
   set of values admit exactly one encoding.
   */
  lemma {:induction false} Canonical(a: seq<Run>, b: seq<Run>, base: int)
    requires Chain(a, base) && Chain(b, base)
    requires Elems(a) == Elems(b)
    ensures a == b
    decreases |a|
  {
    if |a| > 0 {
      FirstValueRecorded(a);
    }
    if |b| > 0 {
      FirstValueRecorded(b);
    }
    if |a| > 0 && |b| > 0 {
      SameFirstRun(a, b, base);
      Canonical(a[1..], b[1..], base + a[0].count);
      SameHeadAndTail(a, b);
    }
  }
}
