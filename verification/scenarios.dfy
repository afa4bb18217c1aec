/**
 Pushing whole ranges and sequences of values, and the two scenarios of the
 package's tests replayed on the model: an empty table, and a table grown
 from two ranges and then patched by single pushes that exercise every case
 of the insertion.
 */
module Scenarios {
  import opened RunTable
  import opened Queries
  import opened Insert

  /** Pushes a, a + 1, ..., b - 1 in increasing order. */
  function PushRange(s: seq<Run>, a: int, b: int): (t: seq<Run>)
    requires Valid(s) && 0 <= a && b <= MaxU32
    ensures Valid(t) && Elems(t) == Elems(s) + Interval(a, b)
    decreases b - a
  {
    if a >= b then
      assert Interval(a, b) == {};
      s
    else
      assert Interval(a, b) == {a} + Interval(a + 1, b);
      PushRange(Push(s, a), a + 1, b)
  }

  /** The values of a sequence, as a set. */
  ghost function Values(xs: seq<u32>): set<int> {
    set i | 0 <= i < |xs| :: xs[i] as int
  }

  /** Pushes the values of `xs` from first to last. */
  function PushAll(s: seq<Run>, xs: seq<u32>): (t: seq<Run>)
    requires Valid(s) && forall i :: 0 <= i < |xs| ==> xs[i] < MaxU32
    ensures Valid(t) && Elems(t) == Elems(s) + Values(xs)
    decreases |xs|
  {
    if |xs| == 0 then
      assert Values(xs) == {};
      s
    else
      assert Values(xs) == {xs[0] as int} + Values(xs[1..]) by {
        forall v | v in Values(xs)
          ensures v == xs[0] as int || v in Values(xs[1..])
        {
          var i :| 0 <= i < |xs| && v == xs[i] as int;
          if i > 0 {
            assert xs[1..][i - 1] == xs[i];
          }
        }
        forall v | v in Values(xs[1..])
          ensures v in Values(xs)
        {
          var i :| 0 <= i < |xs[1..]| && v == xs[1..][i] as int;
          assert xs[i + 1] == xs[1..][i];
        }
      }
      PushAll(Push(s, xs[0]), xs[1..])
  }

  /** The result of pushing a batch of values depends only on the set of values, not on their order or repetitions. */
  lemma PushAllOrderFree(s: seq<Run>, xs: seq<u32>, ys: seq<u32>)
    requires Valid(s)
    requires forall i :: 0 <= i < |xs| ==> xs[i] < MaxU32
    requires forall i :: 0 <= i < |ys| ==> ys[i] < MaxU32
    requires Values(xs) == Values(ys)
    ensures PushAll(s, xs) == PushAll(s, ys)
  {
    Canonical(PushAll(s, xs), PushAll(s, ys), 0);
  }

  /** Appending one run past the tail of a valid table keeps it valid. */
  lemma Snoc(s: seq<Run>, r: Run)
    requires Valid(s) && r.count > 0 && End(r) <= MaxU32
    requires |s| > 0 ==> End(Last(s)) < r.value
    requires r.index == Total(s)
    ensures Valid(s + [r])
    ensures Elems(s + [r]) == Elems(s) + Span(r)
  {
    ElemsSingle(r);
    assert [r][..0] == [];
    ChainJoin(s, [r], 0);
    ElemsConcat(s, [r]);
  }

  /** A range pushed past the tail of a table becomes one new run whose index is the old length. */
  lemma AppendRange(s: seq<Run>, a: int, b: int)
    requires Valid(s) && 0 <= a < b <= MaxU32
    requires |s| > 0 ==> End(Last(s)) < a
    ensures PushRange(s, a, b) == s + [Run(a, Len(s), b - a)]
  {
    var r := Run(a, Len(s), b - a);
    assert End(r) == b;
    Snoc(s, r);
    var t := PushRange(s, a, b);
    assert Elems(t) == Elems(s + [r]);
    Canonical(t, s + [r], 0);
  }

  /** Pushing one range into an empty table: one run, and the accessors read off its bounds. */
  lemma RangeLaw(a: int, b: int)
    requires 0 <= a < b <= MaxU32
    ensures var t := PushRange([], a, b);
      && t == [Run(a, 0, b - a)]
      && Min(t) == a && Max(t) == b - 1 && Len(t) == b - a
      && forall x: u32 :: IndexOf(t, x) == if x <= a then 0 else if x < b then x - a else b - a
  {
    AppendRange([], a, b);
  }

  /** The empty table (rangearray_test.go:27-42): no values, length 0, every search answers 0. */
  lemma EmptyTable(x: u32)
    ensures Valid([]) && Elems([]) == {}
    ensures Len([]) == 0 && IndexOf([], x) == 0 && FirstEndAbove([], x) == 0
  {
  }

  /** Two ranges pushed one after the other into an empty table, the second starting past the first. */
  lemma TwoRanges(a: int, b: int, c: int, d: int)
    requires 0 <= a < b < c < d <= MaxU32
    ensures PushRange(PushRange([], a, b), c, d) == [Run(a, 0, b - a), Run(c, b - a, d - c)]
  {
    TwoRuns(a, b, c, d);
    Canonical(PushRange(PushRange([], a, b), c, d), [Run(a, 0, b - a), Run(c, b - a, d - c)], 0);
  }

  /** The two-run table TwoRanges builds is valid and records both ranges. */
  lemma TwoRuns(a: int, b: int, c: int, d: int)
    requires 0 <= a < b < c < d <= MaxU32
    ensures var t := [Run(a, 0, b - a), Run(c, b - a, d - c)];
      Valid(t) && Elems(t) == Interval(a, b) + Interval(c, d)
  {
    var p := Run(a, 0, b - a);
    var q := Run(c, b - a, d - c);
    Snoc([], p);
    ElemsSingle(p);
    assert End(Last([p])) == b && Total([p]) == b - a;
    Snoc([p], q);
    assert [p] + [q] == [p, q];
  }

  /** The table that the pushes of rangearray_test.go:57-63 build, as `GrownBuilt` shows. */
  function Grown(): seq<Run> {
    [Run(100, 0, 100), Run(350, 100, 100)]
  }

  lemma GrownValid()
    ensures Valid(Grown())
  {
    TwoRuns(100, 200, 350, 450);
  }

  /** Pushing 100..199 and then 350..449 into an empty table (rangearray_test.go:57-63) builds `Grown`. */
  lemma GrownBuilt()
    ensures PushRange(PushRange([], 100, 200), 350, 450) == Grown()
  {
    TwoRanges(100, 200, 350, 450);
  }

  /** The first half of the search test (rangearray_test.go:55-78): two runs, and the searches it checks. */
  lemma SearchScenario()
    ensures Valid(Grown()) && |Grown()| == 2
    ensures FirstEndAbove(Grown(), 50) == 0
    ensures IndexOf(Grown(), 275) == 100 && IndexOf(Grown(), 400) == 150 && IndexOf(Grown(), 500) == 200
  {
    GrownValid();
  }

  /** The tables after each push of rangearray_test.go:79-84. */
  function Patched1(): seq<Run> { [Run(75, 0, 1), Run(100, 1, 100), Run(350, 101, 100)] }
  function Patched2(): seq<Run> { [Run(75, 0, 1), Run(100, 1, 101), Run(350, 102, 100)] }
  function Patched3(): seq<Run> { [Run(75, 0, 1), Run(100, 1, 101), Run(202, 102, 1), Run(350, 103, 100)] }
  function Patched4(): seq<Run> { [Run(75, 0, 1), Run(100, 1, 103), Run(350, 104, 100)] }
  function Patched(): seq<Run> { [Run(75, 0, 1), Run(100, 1, 103), Run(349, 104, 101)] }

  /*
   Each push below is replayed in two steps: which case of the insertion the
   search selects, and what that case builds.
   */

  lemma InsertFrontCase()
    ensures Valid(Grown()) && Push(Grown(), 75) == InsertRun(Grown(), 0, 75)
  {
    GrownValid();
    PushSelectsInsert(Grown(), 0, 75);
  }

  /** Pushing 75 in front of the first run inserts a new run and shifts the others' indices. */
  lemma PatchInsertFront()
    ensures Valid(Grown()) && Push(Grown(), 75) == Patched1()
  {
    InsertFrontCase();
    var t := InsertRun(Grown(), 0, 75);
    assert t[1] == Patched1()[1] && t[2] == Patched1()[2];
  }

  lemma ExtendRightCase()
    ensures Valid(Patched1()) && Push(Patched1(), 200) == ExtendRight(Patched1(), 2, 200)
  {
    PatchInsertFront();
    PushSelectsExtendRight(Patched1(), 2, 200);
  }

  /** Pushing 200, just past the second run, extends it to the right. */
  lemma PatchExtendRight()
    ensures Valid(Patched1()) && Push(Patched1(), 200) == Patched2()
  {
    ExtendRightCase();
    var t := ExtendRight(Patched1(), 2, 200);
    assert t[0] == Patched2()[0] && t[2] == Patched2()[2];
  }

  lemma InsertMiddleCase()
    ensures Valid(Patched2()) && Push(Patched2(), 202) == InsertRun(Patched2(), 2, 202)
  {
    PatchExtendRight();
    PushSelectsInsert(Patched2(), 2, 202);
  }

  /** Pushing 202 into the gap, apart from both neighbours, inserts a one-value run. */
  lemma PatchInsertMiddle()
    ensures Valid(Patched2()) && Push(Patched2(), 202) == Patched3()
  {
    InsertMiddleCase();
    var t := InsertRun(Patched2(), 2, 202);
    assert t[0] == Patched3()[0] && t[1] == Patched3()[1] && t[3] == Patched3()[3];
  }

  lemma MergeCase()
    ensures Valid(Patched3()) && Push(Patched3(), 201) == Merge(Patched3(), 2, 201)
  {
    PatchInsertMiddle();
    PushSelectsMerge(Patched3(), 2, 201);
  }

  /** Pushing 201, the one value between two runs, merges them. */
  lemma PatchMerge()
    ensures Valid(Patched3()) && Push(Patched3(), 201) == Patched4()
  {
    MergeCase();
    var t := Merge(Patched3(), 2, 201);
    assert t[0] == Patched4()[0] && t[2] == Patched4()[2];
  }

  /** Pushing 200 again, a value already recorded, changes nothing. */
  lemma PatchDuplicate()
    ensures Valid(Patched4()) && Push(Patched4(), 200) == Patched4()
  {
    PatchMerge();
  }

  lemma ExtendLeftCase()
    ensures Valid(Patched4()) && Push(Patched4(), 349) == ExtendLeft(Patched4(), 2, 349)
  {
    PatchMerge();
    PushSelectsExtendLeft(Patched4(), 2, 349);
  }

  /** Pushing 349, just before the last run, extends it to the left. */
  lemma PatchExtendLeft()
    ensures Valid(Patched4()) && Push(Patched4(), 349) == Patched()
  {
    ExtendLeftCase();
    var t := ExtendLeft(Patched4(), 2, 349);
    assert t[0] == Patched()[0] && t[1] == Patched()[1];
  }

  lemma PatchedValid()
    ensures Valid(Patched())
  {
    PatchExtendLeft();
  }

  /** The searches of rangearray_test.go:86-96 on the patched table, below and inside the first two runs. */
  lemma PatchedSearchLow()
    ensures Valid(Patched())
    ensures IndexOf(Patched(), 75) == 0 && IndexOf(Patched(), 100) == 1 && IndexOf(Patched(), 200) == 101
  {
    PatchedValid();
  }

  /** The searches of rangearray_test.go:86-96 around the gap between the second and third runs. */
  lemma PatchedSearchGap()
    ensures Valid(Patched())
    ensures IndexOf(Patched(), 202) == 103 && IndexOf(Patched(), 203) == 104 && IndexOf(Patched(), 349) == 104
  {
    PatchedValid();
  }

  /** The searches of rangearray_test.go:86-96 inside and past the last run. */
  lemma PatchedSearchHigh()
    ensures Valid(Patched())
    ensures IndexOf(Patched(), 350) == 105 && IndexOf(Patched(), 450) == 205 && IndexOf(Patched(), 500) == 205
  {
    PatchedValid();
  }
}
