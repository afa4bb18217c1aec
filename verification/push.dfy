/**
 Insertion into a run table. `Push` is the only mutator: it records one more
 value, extending, merging or creating runs so that the table stays valid and
 records exactly one value more (or nothing more, when the value was there).
 */
module Insert {
  import opened RunTable
  import opened Queries

  /** `b` is `a` with every run one place further up: same values and counts, each index one higher. */
  ghost predicate Shifted(a: seq<Run>, b: seq<Run>) {
    |b| == |a| && forall i :: 0 <= i < |a| ==> b[i].value == a[i].value && b[i].count == a[i].count && b[i].index == a[i].index + 1
  }

  /** Every run moves one place up in the overall order. */
  function Shift(t: seq<Run>): (u: seq<Run>)
    requires forall i :: 0 <= i < |t| ==> t[i].index < MaxU32
    ensures Shifted(t, u)
  {
    seq(|t|, i requires 0 <= i < |t| => t[i].(index := t[i].index + 1))
  }

  /** Shifting keeps a chain a chain, one index higher, recording the same values. */
  lemma ShiftedChain(a: seq<Run>, b: seq<Run>, base: int)
    requires Chain(a, base) && Shifted(a, b)
    ensures Chain(b, base + 1)
    ensures Elems(b) == Elems(a)
  {
    assert Separated(b) by {
      forall i, j | 0 <= i < j < |b|
        ensures End(b[i]) < b[j].value
      {
        assert End(a[i]) < a[j].value;
      }
    }
    assert Indexed(b, base + 1) by {
      forall i | 0 <= i < |b|
        ensures b[i].index == base + 1 + Total(b[..i])
      {
        ElemsIgnoresIndex(b[..i], a[..i]);
        assert a[i].index == base + Total(a[..i]);
      }
    }
    ElemsIgnoresIndex(b, a);
  }

  /** In a valid table every index leaves room for one more, so the runs from `k` on can be shifted. */
  lemma Room(s: seq<Run>, k: int)
    requires Valid(s) && 0 <= k <= |s|
    ensures forall i :: 0 <= i < |s[k..]| ==> s[k..][i].index < MaxU32
  {
    forall i | 0 <= i < |s[k..]|
      ensures s[k..][i].index < MaxU32
    {
      IndexRoom(s);
      assert s[k..][i] == s[k + i];
    }
  }

  /** The number of values recorded before run `k`, read off the neighbouring runs. */
  lemma TotalAt(s: seq<Run>, k: int)
    requires Valid(s) && 0 <= k <= |s|
    ensures k < |s| ==> Total(s[..k]) == s[k].index
    ensures k > 0 ==> Total(s[..k]) == s[k - 1].index + s[k - 1].count
  {
    if k > 0 {
      PrefixStep(s, k);
      assert s[k - 1].index == Total(s[..k - 1]);
    }
    if k < |s| {
      assert s[k].index == Total(s[..k]);
    }
  }

  lemma SpanGrowsRight(r: Run, c: u32)
    requires c == r.count + 1
    ensures Span(r.(count := c)) == Span(r) + {End(r)}
  {
  }

  lemma SpanGrowsLeft(r: Run, v: u32, c: u32)
    requires v + 1 == r.value && c == r.count + 1
    ensures Span(Run(v, r.index, c)) == {v} + Span(r)
  {
  }

  lemma SpanSingle(x: u32, i: u32)
    ensures Span(Run(x, i, 1)) == {x}
  {
  }

  lemma SpanMerge(p: Run, q: Run, c: u32)
    requires End(p) + 1 == q.value && c == p.count + 1 + q.count
    ensures Span(p.(count := c)) == Span(p) + {End(p)} + Span(q)
  {
  }

  lemma ElemsPair(p: Run, q: Run)
    ensures Elems([p, q]) == Span(p) + Span(q)
  {
    assert [p, q][..1] == [p];
    ElemsSingle(p);
  }

  /** Elems of a table assembled from a prefix, one run and a tail. */
  lemma ElemsOfThree(a: seq<Run>, r: Run, b: seq<Run>)
    ensures Elems(a + [r] + b) == Elems(a) + Span(r) + Elems(b)
  {
    ElemsConcat(a + [r], b);
    ElemsConcat(a, [r]);
    ElemsSingle(r);
  }

  /** A prefix, one run and a tail that fit together make a valid table. */
  lemma Assemble(a: seq<Run>, r: Run, b: seq<Run>)
    requires Chain(a, 0) && r.index == Total(a)
    requires r.count > 0 && End(r) <= MaxU32
    requires |a| > 0 ==> End(Last(a)) < r.value
    requires Chain(b, r.index + r.count)
    requires |b| > 0 ==> End(r) < b[0].value
    ensures Valid(a + [r] + b)
    ensures Elems(a + [r] + b) == Elems(a) + Span(r) + Elems(b)
  {
    ElemsSingle(r);
    assert [r][..0] == [];
    ChainJoin(a, [r], 0);
    assert Last(a + [r]) == r;
    TotalConcat(a, [r]);
    ChainJoin(a + [r], b, 0);
    ElemsOfThree(a, r, b);
  }

  /** Where the runs of an assembled table come from. */
  lemma Layout(a: seq<Run>, r: Run, b: seq<Run>)
    ensures var t := a + [r] + b;
      && |t| == |a| + 1 + |b|
      && t[..|a|] == a && t[|a|] == r && t[|a| + 1..] == b
  {
    var t := a + [r] + b;
    assert t[..|a|] == a;
    assert t[|a| + 1..] == b;
  }

  /**
   Every case of an insertion replaces the runs s[lo..hi] by one run `r` that
   covers them and `x`, and shifts the runs after them, `rest`, one index up.
   This is what the replacement must satisfy: `r` fits between its
   neighbours, starts where the prefix leaves off and counts one value more
   than the runs it replaces.
   */
  ghost predicate Splices(s: seq<Run>, lo: int, hi: int, r: Run, rest: seq<Run>, x: int) {
    && Valid(s) && 0 <= lo <= hi <= |s|
    && r.count > 0 && End(r) <= MaxU32
    && (lo > 0 ==> End(s[lo - 1]) < r.value)
    && (hi < |s| ==> End(r) < s[hi].value)
    && r.index == Total(s[..lo]) && r.index + r.count == Total(s[..hi]) + 1
    && Span(r) == Elems(s[lo..hi]) + {x}
    && Shifted(s[hi..], rest)
  }

  /** A splice that fits yields a valid table recording exactly one value more. */
  lemma Splice(s: seq<Run>, lo: int, hi: int, r: Run, rest: seq<Run>, x: int)
    requires Splices(s, lo, hi, r, rest, x)
    ensures var t := s[..lo] + [r] + rest;
      && Valid(t) && Elems(t) == Elems(s) + {x}
      && |t| == lo + 1 + |s| - hi
      && t[..lo] == s[..lo] && t[lo] == r && t[lo + 1..] == rest
  {
    var t := s[..lo] + [r] + rest;
    ChainSlice(s, 0, lo);
    ChainSlice(s, 0, hi);
    ShiftedChain(s[hi..], rest, Total(s[..hi]));
    if lo > 0 {
      assert Last(s[..lo]) == s[lo - 1];
    }
    if hi < |s| {
      assert rest[0].value == s[hi].value;
    }
    Assemble(s[..lo], r, rest);
    SpliceElems(s, lo, hi, r, rest, x);
    Layout(s[..lo], r, rest);
  }

  /** The recorded set of a splice: the old set plus `x`, when `r` covers the replaced runs and `x`. */
  lemma SpliceElems(s: seq<Run>, lo: int, hi: int, r: Run, rest: seq<Run>, x: int)
    requires 0 <= lo <= hi <= |s|
    requires Span(r) == Elems(s[lo..hi]) + {x}
    requires Elems(rest) == Elems(s[hi..])
    ensures Elems(s[..lo] + [r] + rest) == Elems(s) + {x}
  {
    ElemsOfThree(s[..lo], r, rest);
    assert s == s[..lo] + s[lo..hi] + s[hi..];
    ElemsConcat(s[..lo] + s[lo..hi], s[hi..]);
    ElemsConcat(s[..lo], s[lo..hi]);
  }

  lemma ExtendTailFits(s: seq<Run>, x: u32, grown: Run)
    requires Valid(s) && |s| > 0 && x == End(Last(s)) && x < MaxU32
    requires grown == Last(s).(count := Last(s).count + 1)
    ensures Splices(s, |s| - 1, |s|, grown, [], x)
  {
    var n := |s| - 1;
    assert Last(s) == s[n];
    TotalAt(s, n);
    TotalAt(s, n + 1);
    assert s[n..n + 1] == [s[n]];
    ElemsSingle(s[n]);
    SpanGrowsRight(s[n], grown.count);
    assert s[n + 1..] == [];
  }

  /**
   The value `x` continues the tail run (rangearray.go:122-126): the tail run
   grows by one and nothing else changes.
   */
  function ExtendTail(s: seq<Run>, x: u32): (t: seq<Run>)
    requires Valid(s) && |s| > 0
    requires x == End(Last(s)) && x < MaxU32
    ensures Valid(t) && Elems(t) == Elems(s) + {x}
    ensures |t| == |s| && t[..|s| - 1] == s[..|s| - 1]
    ensures Last(t).value == Last(s).value && Last(t).index == Last(s).index
    ensures Last(t).count == Last(s).count + 1
  {
    var grown := Last(s).(count := Last(s).count + 1);
    ExtendTailFits(s, x, grown);
    Splice(s, |s| - 1, |s|, grown, [], x);
    // `+ []` keeps the shape `s[..lo] + [r] + rest` that Splice's postcondition is stated for.
    s[..|s| - 1] + [grown] + []
  }

  lemma AppendFits(s: seq<Run>, x: u32, added: Run)
    requires Valid(s) && |s| > 0 && End(Last(s)) < x < MaxU32
    requires added.value == x && added.count == 1 && added.index == Total(s)
    ensures Splices(s, |s|, |s|, added, [], x)
  {
    TotalAt(s, |s|);
    assert s[|s|..|s|] == [];
    assert s[..|s|] == s;
    SpanSingle(x, added.index);
  }

  /**
   The value `x` lies past the tail run with a gap (rangearray.go:128-136): a
   new singleton run is appended whose index counts every recorded value.
   */
  function AppendRun(s: seq<Run>, x: u32): (t: seq<Run>)
    requires Valid(s) && |s| > 0
    requires End(Last(s)) < x < MaxU32
    ensures Valid(t) && Elems(t) == Elems(s) + {x}
    ensures |t| == |s| + 1 && t[..|s|] == s
    ensures t[|s|].value == x && t[|s|].count == 1 && t[|s|].index == |Elems(s)|
  {
    IndexRoom(s);
    TotalAt(s, |s|);
    assert s[..|s|] == s;
    var added := Run(x, Last(s).index + Last(s).count, 1);
    ElemsCard(s);
    AppendFits(s, x, added);
    Splice(s, |s|, |s|, added, [], x);
    // `+ []` keeps the shape `s[..lo] + [r] + rest` that Splice's postcondition is stated for.
    s + [added] + []
  }

  lemma MergeFits(s: seq<Run>, n: int, x: u32, merged: Run, rest: seq<Run>)
    requires Valid(s) && 0 < n < |s|
    requires x == End(s[n - 1]) && x + 1 == s[n].value
    requires merged == s[n - 1].(count := s[n - 1].count + s[n].count + 1)
    requires Shifted(s[n + 1..], rest)
    ensures Splices(s, n - 1, n + 1, merged, rest, x)
  {
    TotalAt(s, n - 1);
    TotalAt(s, n);
    TotalAt(s, n + 1);
    assert s[n - 1..n + 1] == [s[n - 1], s[n]];
    ElemsPair(s[n - 1], s[n]);
    SpanMerge(s[n - 1], s[n], merged.count);
  }

  /**
   `x` closes the one-value gap between runs n-1 and n (rangearray.go:151-156):
   the two runs merge into one, the table loses a run, and the later runs'
   indices grow by one.
   */
  function Merge(s: seq<Run>, n: int, x: u32): (t: seq<Run>)
    requires Valid(s) && 0 < n < |s|
    requires x == End(s[n - 1]) && x + 1 == s[n].value
    ensures Valid(t) && Elems(t) == Elems(s) + {x}
    ensures |t| == |s| - 1 && t[..n - 1] == s[..n - 1]
    ensures t[n - 1].value == s[n - 1].value && t[n - 1].index == s[n - 1].index
    ensures t[n - 1].count == s[n - 1].count + 1 + s[n].count
    ensures Shifted(s[n + 1..], t[n..])
  {
    var merged := s[n - 1].(count := s[n - 1].count + s[n].count + 1);
    Room(s, n + 1);
    var rest := Shift(s[n + 1..]);
    MergeFits(s, n, x, merged, rest);
    Splice(s, n - 1, n + 1, merged, rest, x);
    s[..n - 1] + [merged] + rest
  }

  lemma ExtendLeftFits(s: seq<Run>, n: int, x: u32, grown: Run, rest: seq<Run>)
    requires Valid(s) && 0 <= n < |s|
    requires x + 1 == s[n].value && (n == 0 || End(s[n - 1]) < x)
    requires grown == Run(x, s[n].index, s[n].count + 1)
    requires Shifted(s[n + 1..], rest)
    ensures Splices(s, n, n + 1, grown, rest, x)
  {
    TotalAt(s, n);
    TotalAt(s, n + 1);
    assert s[n..n + 1] == [s[n]];
    ElemsSingle(s[n]);
    SpanGrowsLeft(s[n], x, grown.count);
  }

  /**
   `x` sits just before run n and not just after run n-1 (rangearray.go:157-160):
   run n grows one value to the left and the later runs' indices grow by one.
   */
  function ExtendLeft(s: seq<Run>, n: int, x: u32): (t: seq<Run>)
    requires Valid(s) && 0 <= n < |s|
    requires x + 1 == s[n].value && (n == 0 || End(s[n - 1]) < x)
    ensures Valid(t) && Elems(t) == Elems(s) + {x}
    ensures |t| == |s| && t[..n] == s[..n]
    ensures t[n].value == x && t[n].index == s[n].index && t[n].count == s[n].count + 1
    ensures Shifted(s[n + 1..], t[n + 1..])
  {
    var grown := Run(x, s[n].index, s[n].count + 1);
    Room(s, n + 1);
    var rest := Shift(s[n + 1..]);
    ExtendLeftFits(s, n, x, grown, rest);
    Splice(s, n, n + 1, grown, rest, x);
    s[..n] + [grown] + rest
  }

  lemma ExtendRightFits(s: seq<Run>, n: int, x: u32, grown: Run, rest: seq<Run>)
    requires Valid(s) && 0 < n < |s|
    requires x == End(s[n - 1]) && x + 1 < s[n].value
    requires grown == s[n - 1].(count := s[n - 1].count + 1)
    requires Shifted(s[n..], rest)
    ensures Splices(s, n - 1, n, grown, rest, x)
  {
    TotalAt(s, n - 1);
    TotalAt(s, n);
    assert s[n - 1..n] == [s[n - 1]];
    ElemsSingle(s[n - 1]);
    SpanGrowsRight(s[n - 1], grown.count);
  }

  /**
   `x` sits just after run n-1 and not just before run n (rangearray.go:161-163):
   run n-1 grows one value to the right and the indices from run n on grow by one.
   */
  function ExtendRight(s: seq<Run>, n: int, x: u32): (t: seq<Run>)
    requires Valid(s) && 0 < n < |s|
    requires x == End(s[n - 1]) && x + 1 < s[n].value
    ensures Valid(t) && Elems(t) == Elems(s) + {x}
    ensures |t| == |s| && t[..n - 1] == s[..n - 1]
    ensures t[n - 1].value == s[n - 1].value && t[n - 1].index == s[n - 1].index
    ensures t[n - 1].count == s[n - 1].count + 1
    ensures Shifted(s[n..], t[n..])
  {
    var grown := s[n - 1].(count := s[n - 1].count + 1);
    Room(s, n);
    var rest := Shift(s[n..]);
    ExtendRightFits(s, n, x, grown, rest);
    Splice(s, n - 1, n, grown, rest, x);
    s[..n - 1] + [grown] + rest
  }

  lemma InsertFits(s: seq<Run>, n: int, x: u32, single: Run, rest: seq<Run>)
    requires Valid(s) && 0 <= n < |s|
    requires x + 1 < s[n].value && (n == 0 || End(s[n - 1]) < x)
    requires single == Run(x, s[n].index, 1)
    requires Shifted(s[n..], rest)
    ensures Splices(s, n, n, single, rest, x)
  {
    TotalAt(s, n);
    assert s[n..n] == [];
    SpanSingle(x, single.index);
  }

  /**
   `x` touches neither neighbour (rangearray.go:164-173): a singleton run is
   inserted at position n with run n's old index, and run n and every later
   run move one slot and one index up.
   */
  function InsertRun(s: seq<Run>, n: int, x: u32): (t: seq<Run>)
    requires Valid(s) && 0 <= n < |s|
    requires x + 1 < s[n].value && (n == 0 || End(s[n - 1]) < x)
    ensures Valid(t) && Elems(t) == Elems(s) + {x}
    ensures |t| == |s| + 1 && t[..n] == s[..n]
    ensures t[n].value == x && t[n].index == s[n].index && t[n].count == 1
    ensures Shifted(s[n..], t[n + 1..])
  {
    var single := Run(x, s[n].index, 1);
    Room(s, n);
    var rest := Shift(s[n..]);
    InsertFits(s, n, x, single, rest);
    Splice(s, n, n, single, rest, x);
    s[..n] + [single] + rest
  }

  /**
   Once the tail cases are excluded, the search lands inside the table
   (rangearray.go:139-140), the run it finds ends after `x`, and `x` is a
   duplicate exactly when it is at or past that run's start: the
   "x is after r.S[n]" alternative of rangearray.go:142 cannot happen.
   */
  lemma InteriorSearch(s: seq<Run>, x: int)
    requires Valid(s) && |s| > 0 && x < End(Last(s))
    ensures FirstEndAbove(s, x) < |s|
    ensures x < End(s[FirstEndAbove(s, x)])
    ensures x in Elems(s) <==> s[FirstEndAbove(s, x)].value <= x
  {
    var n := FirstEndAbove(s, x);
    assert x < End(s[|s| - 1]);
    RecordedWithin(s, x, n);
  }

  /** When run `n` is the first to end after `x`, `x` is recorded exactly when it is at or past the start of run `n`. */
  lemma RecordedWithin(s: seq<Run>, x: int, n: int)
    requires Valid(s) && 0 <= n < |s| && x < End(s[n])
    requires n > 0 ==> End(s[n - 1]) <= x
    ensures x in Elems(s) <==> s[n].value <= x
  {
    Decompose(s, n);
    assert n + 1 < |s| ==> End(s[n]) < s[n + 1].value;
  }

  /**
   Insertion before the end of the tail run (rangearray.go:138-178): a
   duplicate leaves the table as it is; otherwise one of the four interior
   cases applies.
   */
  function PushInterior(s: seq<Run>, x: u32): (t: seq<Run>)
    requires Valid(s) && |s| > 0 && x < End(Last(s))
    ensures Valid(t) && Elems(t) == Elems(s) + {x}
    ensures x in Elems(s) ==> t == s
  {
    var n := FirstEndAbove(s, x);
    InteriorSearch(s, x);
    if x >= s[n].value then
      s
    else
      var afterPrev := n > 0 && x == End(s[n - 1]);
      if x + 1 == s[n].value then
        if afterPrev then Merge(s, n, x) else ExtendLeft(s, n, x)
      else if afterPrev then
        ExtendRight(s, n, x)
      else
        InsertRun(s, n, x)
  }

  /**
   Records `x` (rangearray.go:109-179). The table stays valid and records
   exactly the old values and `x`; a value already recorded changes nothing.
   */
  function Push(s: seq<Run>, x: u32): (t: seq<Run>)
    requires Valid(s) && x < MaxU32
    ensures Valid(t) && Elems(t) == Elems(s) + {x}
    ensures t == s <==> x in Elems(s)
  {
    if |s| == 0 then
      SpanSingle(x, 0);
      ElemsSingle(Run(x, 0, 1));
      [Run(x, 0, 1)]
    else
      ElemsBounds(s);
      if End(Last(s)) == x then ExtendTail(s, x)
      else if End(Last(s)) < x then AppendRun(s, x)
      else PushInterior(s, x)
  }

  /**
   When `x` lies at or past the end of run n-1 and before the end of run n,
   Push takes the interior path and its search lands on run n.
   */
  lemma PushLands(s: seq<Run>, n: int, x: u32)
    requires Valid(s) && x < MaxU32 && 0 <= n < |s|
    requires n == 0 || End(s[n - 1]) <= x
    requires x < End(s[n])
    ensures |s| > 0 && x < End(Last(s)) && FirstEndAbove(s, x) == n
    ensures Push(s, x) == PushInterior(s, x)
  {
    SearchLands(s, x, n);
    if n < |s| - 1 {
      assert End(s[n]) < Last(s).value;
    }
  }

  /** Whenever Merge's precondition holds, Merge is what Push does. */
  lemma PushSelectsMerge(s: seq<Run>, n: int, x: u32)
    requires Valid(s) && 0 < n < |s|
    requires x == End(s[n - 1]) && x + 1 == s[n].value
    ensures Push(s, x) == Merge(s, n, x)
  {
    PushLands(s, n, x);
    assert PushInterior(s, x) == Merge(s, n, x) by {
      assert n > 0 && x == End(s[n - 1]);
    }
  }

  /** Whenever ExtendLeft's precondition holds, ExtendLeft is what Push does. */
  lemma PushSelectsExtendLeft(s: seq<Run>, n: int, x: u32)
    requires Valid(s) && 0 <= n < |s|
    requires x + 1 == s[n].value && (n == 0 || End(s[n - 1]) < x)
    ensures Push(s, x) == ExtendLeft(s, n, x)
  {
    PushLands(s, n, x);
    assert PushInterior(s, x) == ExtendLeft(s, n, x) by {
      assert !(n > 0 && x == End(s[n - 1]));
    }
  }

  /** Whenever ExtendRight's precondition holds, ExtendRight is what Push does. */
  lemma PushSelectsExtendRight(s: seq<Run>, n: int, x: u32)
    requires Valid(s) && 0 < n < |s|
    requires x == End(s[n - 1]) && x + 1 < s[n].value
    ensures Push(s, x) == ExtendRight(s, n, x)
  {
    PushLands(s, n, x);
    assert PushInterior(s, x) == ExtendRight(s, n, x) by {
      assert n > 0 && x == End(s[n - 1]);
    }
  }

  /** Whenever InsertRun's precondition holds, InsertRun is what Push does. */
  lemma PushSelectsInsert(s: seq<Run>, n: int, x: u32)
    requires Valid(s) && 0 <= n < |s|
    requires x + 1 < s[n].value && (n == 0 || End(s[n - 1]) < x)
    ensures Push(s, x) == InsertRun(s, n, x)
  {
    PushLands(s, n, x);
    assert PushInterior(s, x) == InsertRun(s, n, x) by {
      assert !(n > 0 && x == End(s[n - 1]));
    }
  }

  /** Pushing a value twice is the same as pushing it once. */
  lemma PushTwice(s: seq<Run>, x: u32)
    requires Valid(s) && x < MaxU32
    ensures Push(Push(s, x), x) == Push(s, x)
  {
  }

  /** The table depends only on the set of values pushed, not on their order. */
  lemma PushCommutes(s: seq<Run>, x: u32, y: u32)
    requires Valid(s) && x < MaxU32 && y < MaxU32
    ensures Push(Push(s, x), y) == Push(Push(s, y), x)
  {
    Canonical(Push(Push(s, x), y), Push(Push(s, y), x), 0);
  }
}
