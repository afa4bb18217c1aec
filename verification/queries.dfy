/**
 The read-only operations of a run table: the accessors Min, Max and Len,
 the run search LowerBound and the rank query IndexOf.
 */
module Queries {
  import opened RunTable
  import BinarySearch

  /** The smallest recorded value; the table must not be empty. */
  function Min(s: seq<Run>): (m: u32)
    requires Valid(s) && |s| > 0
    ensures m in Elems(s)
    ensures forall v :: v in Elems(s) ==> m <= v
  {
    FirstValueRecorded(s);
    ElemsBounds(s);
    s[0].value
  }

  /** The largest recorded value; the table must not be empty. */
  function Max(s: seq<Run>): (m: u32)
    requires Valid(s) && |s| > 0
    ensures m in Elems(s)
    ensures forall v :: v in Elems(s) ==> v <= m
  {
    Decompose(s, |s| - 1);
    ElemsBounds(s);
    Last(s).value + Last(s).count - 1
  }

  /** The number of recorded values. */
  function Len(s: seq<Run>): (n: u32)
    requires Valid(s)
    ensures n == |Elems(s)|
    ensures n == Total(s)
    ensures |s| == 0 ==> n == 0
  {
    ElemsCard(s);
    if |s| == 0 then 0
    else
      LastIndexIsTotal(s, 0);
      TotalWithinEnd(s);
      Last(s).index + Last(s).count
  }

  /**
   Reference definition of the lower bound: the position of the first run that
   ends after `x`, or |s| when every run ends at or before `x`.
   */
  function FirstEndAbove(s: seq<Run>, x: int): (i: nat)
    ensures i <= |s|
    ensures forall j :: 0 <= j < i ==> End(s[j]) <= x
    ensures i < |s| ==> x < End(s[i])
    decreases |s|
  {
    if |s| == 0 || x < End(s[0]) then 0 else 1 + FirstEndAbove(s[1..], x)
  }

  /** Run ends increase along a valid table, so the search predicate `x < End(s[i])` is monotone. */
  lemma EndsAscend(s: seq<Run>)
    requires Valid(s)
    ensures forall i, j :: 0 <= i < j < |s| ==> End(s[i]) < End(s[j])
  {
  }

  /** Binary search for the first run whose end is greater than `x`. */
  method LowerBound(s: seq<Run>, x: u32) returns (i: nat)
    requires Valid(s)
    ensures i <= |s|
    ensures forall j :: 0 <= j < i ==> End(s[j]) <= x
    ensures forall j :: i <= j < |s| ==> x < End(s[j])
    ensures i == FirstEndAbove(s, x)
  {
    if |s| == 0 {
      return 0;
    }
    var f := (j: nat) => j >= |s| || x < End(s[j]);
    EndsAscend(s);
    assert BinarySearch.Monotone(|s|, f);
    i := BinarySearch.Search(|s|, f);
    forall j | 0 <= j < i
      ensures End(s[j]) <= x
    {
      assert !f(j);
    }
    forall j | i <= j < |s|
      ensures x < End(s[j])
    {
      assert f(j);
    }
    LowerBoundUnique(s, x, i);
  }

  /** The lower bound is the only split point of the runs ending at or before `x`. */
  lemma LowerBoundUnique(s: seq<Run>, x: int, i: nat)
    requires i <= |s|
    requires forall j :: 0 <= j < i ==> End(s[j]) <= x
    requires forall j :: i <= j < |s| ==> x < End(s[j])
    ensures i == FirstEndAbove(s, x)
  {
    var r := FirstEndAbove(s, x);
    assert r < |s| ==> x < End(s[r]);
    assert i < |s| ==> x < End(s[i]);
  }

  /** The lower bound is n when `x` lies at or past the end of run n-1 and before the end of run n. */
  lemma SearchLands(s: seq<Run>, x: int, n: int)
    requires Valid(s) && 0 <= n < |s|
    requires n == 0 || End(s[n - 1]) <= x
    requires x < End(s[n])
    ensures FirstEndAbove(s, x) == n
  {
    forall j | 0 <= j < n
      ensures End(s[j]) <= x
    {
      if j < n - 1 {
        assert End(s[j]) < s[n - 1].value;
      }
    }
    forall j | n <= j < |s|
      ensures x < End(s[j])
    {
      if j > n {
        assert End(s[n]) < s[j].value;
      }
    }
    LowerBoundUnique(s, x, n);
  }

  /** The recorded values strictly below `x`. */
  ghost function Below(e: set<int>, x: int): set<int> {
    set v | v in e && v < x
  }

  /** Below a value past every run end lie all recorded values. */
  lemma CountBelowPast(s: seq<Run>, x: int)
    requires Valid(s) && FirstEndAbove(s, x) == |s|
    ensures |Below(Elems(s), x)| == Total(s)
  {
    if |s| > 0 {
      ElemsBounds(s);
    }
    assert Below(Elems(s), x) == Elems(s);
    ElemsCard(s);
  }

  /** The values below `x` in a set split into a low part, an interval reaching past `x` and a high part. */
  lemma BelowSplit(low: set<int>, lo: int, hi: int, high: set<int>, x: int)
    requires forall v :: v in low ==> v < lo && v < x
    requires forall v :: v in high ==> x < v
    requires x < hi
    ensures Below(low + Interval(lo, hi) + high, x) == low + Interval(lo, x)
    ensures low * Interval(lo, x) == {}
  {
  }

  /** When run `n` is the first to end after `x`, the values below `x` are the earlier runs plus the part of run `n` before `x`. */
  lemma BelowAt(s: seq<Run>, x: int, n: nat)
    requires Valid(s) && n == FirstEndAbove(s, x) && n < |s|
    ensures Below(Elems(s), x) == Elems(s[..n]) + Interval(s[n].value, x)
    ensures Elems(s[..n]) * Interval(s[n].value, x) == {}
  {
    Decompose(s, n);
    assert n > 0 ==> End(s[n - 1]) <= x && End(s[n - 1]) < s[n].value;
    assert n + 1 < |s| ==> x < End(s[n]) < s[n + 1].value;
    BelowSplit(Elems(s[..n]), s[n].value, End(s[n]), Elems(s[n + 1..]), x);
  }

  lemma CountBelowAt(s: seq<Run>, x: int, n: nat)
    requires Valid(s) && n == FirstEndAbove(s, x) && n < |s|
    ensures |Below(Elems(s), x)| == if x <= s[n].value then s[n].index else x - s[n].value + s[n].index
  {
    BelowAt(s, x, n);
    OrderedSlice(s, 0, n);
    assert s[0..n] == s[..n];
    ElemsCard(s[..n]);
    if x > s[n].value {
      IntervalSize(s[n].value, x);
    } else {
      assert Interval(s[n].value, x) == {};
    }
  }

  /** How the cardinality of the values below `x` follows from the run found by the search. */
  lemma CountBelow(s: seq<Run>, x: int)
    requires Valid(s)
    ensures var n := FirstEndAbove(s, x);
      |Below(Elems(s), x)| ==
        if n == |s| then Total(s)
        else if x <= s[n].value then s[n].index
        else x - s[n].value + s[n].index
  {
    var n := FirstEndAbove(s, x);
    if n == |s| {
      CountBelowPast(s, x);
    } else {
      CountBelowAt(s, x, n);
    }
  }

  /** Past the maximum, the lower bound is one past the last run. */
  lemma PastMax(s: seq<Run>, x: int)
    requires Valid(s)
    ensures |s| > 0 && x >= End(Last(s)) ==> FirstEndAbove(s, x) == |s|
  {
    var n := FirstEndAbove(s, x);
    if n < |s| - 1 {
      assert End(s[n]) < Last(s).value;
    }
  }

  /** The number of recorded values strictly less than `x`. */
  function IndexOf(s: seq<Run>, x: u32): (r: u32)
    requires Valid(s)
    ensures r == |Below(Elems(s), x)|
    ensures (|s| == 0 || x > Max(s)) ==> r == Len(s)
  {
    var i := FirstEndAbove(s, x);
    CountBelow(s, x);
    PastMax(s, x);
    if i < |s| then
      IndexRoom(s);
      if x <= s[i].value then s[i].index else x - s[i].value + s[i].index
    else
      Len(s)
  }
}
