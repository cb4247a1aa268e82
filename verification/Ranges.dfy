/** Inclusive integer ranges and the algebra on lists of them. */
module Ranges {

  datatype Range = Range(start: int, end: int)

  /** Some range of `rs` contains `x`. */
  ghost predicate Covers(rs: seq<Range>, x: int) {
    exists i :: 0 <= i < |rs| && rs[i].start <= x <= rs[i].end
  }

  /** Non-empty ranges in ascending order with a gap between neighbours. */
  ghost predicate Normal(rs: seq<Range>) {
    && (forall i :: 0 <= i < |rs| ==> rs[i].start <= rs[i].end)
    && (forall i, j :: 0 <= i < j < |rs| ==> rs[i].end + 1 < rs[j].start)
  }

  predicate Before(a: Range, b: Range) {
    a.start < b.start || (a.start == b.start && a.end <= b.end)
  }

  ghost predicate Sorted(rs: seq<Range>) {
    forall i, j :: 0 <= i < j < |rs| ==> Before(rs[i], rs[j])
  }

  // ----------------------------------------------------- the normal form

  lemma CoversConcat(a: seq<Range>, b: seq<Range>, x: int)
    ensures Covers(a + b, x) <==> Covers(a, x) || Covers(b, x)
  {
    if Covers(a, x) {
      var i :| 0 <= i < |a| && a[i].start <= x <= a[i].end;
      assert (a + b)[i] == a[i];
    }
    if Covers(b, x) {
      var i :| 0 <= i < |b| && b[i].start <= x <= b[i].end;
      assert (a + b)[|a| + i] == b[i];
    }
  }

  /** The first range of a normal form is the first run of covered integers. */
  lemma FirstRun(rs: seq<Range>, x: int)
    requires Normal(rs) && rs != [] && x <= rs[0].end + 1
    ensures Covers(rs, x) <==> rs[0].start <= x <= rs[0].end
  {
  }

  /** A set of integers has one normal form. */
  lemma {:induction false} NormalUnique(a: seq<Range>, b: seq<Range>)
    requires Normal(a) && Normal(b)
    requires forall x :: Covers(a, x) <==> Covers(b, x)
    ensures a == b
    decreases |a|
  {
    if a == [] || b == [] {
      if a != [] { assert Covers(a, a[0].start); }
      if b != [] { assert Covers(b, b[0].start); }
    } else {
      assert Covers(a, a[0].start) && Covers(b, b[0].start);
      FirstRun(a, b[0].start);
      FirstRun(b, a[0].start);
      assert a[0].start == b[0].start;
      FirstRun(a, a[0].end + 1);
      FirstRun(b, b[0].end + 1);
      assert a[0] == b[0];
      forall x ensures Covers(a[1..], x) <==> Covers(b[1..], x) {
        CoversConcat(a[..1], a[1..], x);
        CoversConcat(b[..1], b[1..], x);
        assert a == a[..1] + a[1..] && b == b[..1] + b[1..];
        TailAbove(a, x);
        TailAbove(b, x);
      }
      NormalUnique(a[1..], b[1..]);
      assert a == [a[0]] + a[1..] && b == [b[0]] + b[1..];
    }
  }

  lemma TailAbove(rs: seq<Range>, x: int)
    requires Normal(rs) && rs != []
    ensures Covers(rs[..1], x) <==> rs[0].start <= x <= rs[0].end
    ensures Covers(rs[1..], x) ==> x > rs[0].end
  {
  }

  // ------------------------------------------------------------ the methods

  /** The non-empty ranges of `ranges` in order: the filter and the library sort. */
  function SortedValid(ranges: seq<Range>): (sorted: seq<Range>)
    ensures Sorted(sorted)
    ensures forall i :: 0 <= i < |sorted| ==> sorted[i].start <= sorted[i].end
    ensures forall r :: r in sorted <==> r in ranges && r.start <= r.end
  {
    if ranges == [] then []
    else if ranges[0].end < ranges[0].start then SortedValid(ranges[1..])
    else InsertSorted(ranges[0], SortedValid(ranges[1..]))
  }

  function InsertSorted(r: Range, sorted: seq<Range>): (result: seq<Range>)
    requires Sorted(sorted)
    ensures Sorted(result)
    ensures forall q :: q in result <==> q == r || q in sorted
  {
    if sorted == [] || Before(r, sorted[0]) then [r] + sorted
    else
      var rest := InsertSorted(r, sorted[1..]);
      assert forall q :: q in rest ==> Before(sorted[0], q) by {
        forall q | q in rest ensures Before(sorted[0], q) {
          if q != r { var i :| 0 <= i < |sorted[1..]| && sorted[1..][i] == q; assert sorted[i + 1] == q; }
        }
      }
      assert sorted == [sorted[0]] + sorted[1..];
      [sorted[0]] + rest
  }

  lemma SortedValidCovers(ranges: seq<Range>, x: int)
    ensures Covers(SortedValid(ranges), x) <==> Covers(ranges, x)
  {
  }

  ghost predicate Same(a: seq<Range>, b: seq<Range>) { forall x :: Covers(a, x) <==> Covers(b, x) }

  /** `out` is the normal form of the ranges `part`, which are in order. */
  ghost predicate Merged(out: seq<Range>, part: seq<Range>) {
    && Normal(out) && Same(out, part)
    && if part == [] then out == [] else out != [] && out[|out| - 1].start <= part[|part| - 1].start
  }

  /** mergeRanges: the same integers in normal form. */
  method MergeRanges(ranges: seq<Range>) returns (out: seq<Range>)
    ensures Normal(out)
    ensures forall x :: Covers(out, x) <==> Covers(ranges, x)
  {
    var sorted := SortedValid(ranges);
    out := [];
    for k := 0 to |sorted|
      invariant Merged(out, sorted[..k])
    {
      var range := sorted[k];
      ghost var was := out;
      if out == [] || range.start > out[|out| - 1].end + 1 {
        out := out + [range];
      } else {
        var last := out[|out| - 1];
        out := out[|out| - 1 := last.(end := if last.end > range.end then last.end else range.end)];
      }
      if k > 0 { assert Before(sorted[k - 1], range) && sorted[..k][k - 1] == sorted[k - 1]; }
      MergedMore(was, sorted[..k], range, out);
      assert sorted[..k + 1] == sorted[..k] + [range];
    }
    assert sorted[..|sorted|] == sorted;
    SortedValidSame(ranges);
  }

  lemma SortedValidSame(ranges: seq<Range>)
    ensures Same(SortedValid(ranges), ranges)
  {
    forall x ensures Covers(SortedValid(ranges), x) <==> Covers(ranges, x) { SortedValidCovers(ranges, x); }
  }

  lemma MergedMore(was: seq<Range>, part: seq<Range>, range: Range, out: seq<Range>)
    requires Merged(was, part) && range.start <= range.end && (part != [] ==> part[|part| - 1].start <= range.start)
    requires TakenIn(was, range, out)
    ensures Merged(out, part + [range])
  {
    MergeStep(was, range, out);
    forall x ensures Covers(out, x) <==> Covers(part + [range], x) { CoversConcat(part, [range], x); }
  }

  /** One turn of the merge: the range is put behind, or the last one reaches to its end. */
  predicate TakenIn(was: seq<Range>, range: Range, out: seq<Range>) {
    if was == [] || range.start > was[|was| - 1].end + 1 then out == was + [range]
    else
      var last := was[|was| - 1];
      out == was[|was| - 1 := last.(end := if last.end > range.end then last.end else range.end)]
  }

  /** Taking in the next range in order keeps the normal form and adds its integers. */
  lemma MergeStep(was: seq<Range>, range: Range, out: seq<Range>)
    requires Normal(was) && range.start <= range.end && TakenIn(was, range, out)
    requires was != [] ==> was[|was| - 1].start <= range.start
    ensures Normal(out) && out != [] && out[|out| - 1].start <= range.start
    ensures forall x :: Covers(out, x) <==> Covers(was, x) || Covers([range], x)
  {
    forall x ensures Covers(out, x) <==> Covers(was, x) || Covers([range], x) {
      if was == [] || range.start > was[|was| - 1].end + 1 {
        CoversConcat(was, [range], x);
      } else {
        ExtendLast(was, range, x);
      }
    }
  }

  /** Extending the last range by an overlapping or adjacent one adds exactly its integers. */
  lemma ExtendLast(out: seq<Range>, range: Range, x: int)
    requires out != [] && range.start <= range.end
    requires var last := out[|out| - 1];
      last.start <= range.start <= last.end + 1 && last.start <= last.end
    ensures var last := out[|out| - 1];
      var next := out[|out| - 1 := last.(end := if last.end > range.end then last.end else range.end)];
      Covers(next, x) <==> Covers(out, x) || Covers([range], x)
  {
    var n, last := |out| - 1, out[|out| - 1];
    var wider := last.(end := if last.end > range.end then last.end else range.end);
    assert out == out[..n] + [last] && out[n := wider] == out[..n] + [wider];
    CoversConcat(out[..n], [last], x);
    CoversConcat(out[..n], [wider], x);
    CoversOne(last, x);
    CoversOne(wider, x);
    CoversOne(range, x);
  }

  lemma CoversOne(r: Range, x: int)
    ensures Covers([r], x) <==> r.start <= x <= r.end
  {
    if r.start <= x <= r.end { assert [r][0] == r; }
  }

  /** subtractRanges: the integers of `range` outside `covered`, in normal form. */
  method SubtractRanges(range: Range, covered: seq<Range>) returns (out: seq<Range>)
    ensures Normal(out)
    ensures forall x :: Covers(out, x) <==> range.start <= x <= range.end && !Covers(covered, x)
  {
    if range.end < range.start { return []; }
    var merged := MergeRanges(covered);
    out := [];
    var cursor := range.start;
    var k := 0;
    var stop := false;
    while k < |merged| && !stop
      invariant 0 <= k <= |merged| && Subtracting(range, merged, k, out, cursor)
      invariant stop ==> Clear(merged, cursor, range.end)
      decreases |merged| - k, !stop
    {
      var entry := merged[k];
      if entry.end < cursor {
        k := k + 1;
      } else if entry.start > range.end {
        stop := true;
        NothingLeft(range, merged, k, out, cursor);
      } else {
        ghost var was, from := out, cursor;
        if entry.start > cursor {
          out := out + [Range(cursor, if entry.start - 1 < range.end then entry.start - 1 else range.end)];
        }
        cursor := if cursor > entry.end + 1 then cursor else entry.end + 1;
        SubtractNext(range, merged, k, was, from, out);
        k := k + 1;
        if cursor > range.end { stop := true; }
      }
    }
    if !stop { NothingLeft(range, merged, k, out, cursor); }
    ghost var before := out;
    if cursor <= range.end { out := out + [Range(cursor, range.end)]; }
    SubtractLast(range, merged, k, before, cursor, out);
  }

  /** Below the cursor, `out` is what `merged` leaves of the range; the first `k` ranges of
      `merged` end there. */
  ghost predicate Subtracting(range: Range, merged: seq<Range>, k: nat, out: seq<Range>, cursor: int) {
    && Normal(merged) && k <= |merged| && range.start <= cursor && range.start <= range.end
    && Normal(out) && (out != [] ==> out[|out| - 1].end + 1 < cursor)
    && (forall i :: 0 <= i < k ==> merged[i].end < cursor)
    && forall x :: Covers(out, x) <==> range.start <= x <= range.end && x < cursor && !Covers(merged, x)
  }

  ghost predicate Clear(merged: seq<Range>, from: int, end: int) {
    forall x :: from <= x <= end ==> !Covers(merged, x)
  }

  lemma NothingLeft(range: Range, merged: seq<Range>, k: nat, out: seq<Range>, cursor: int)
    requires Subtracting(range, merged, k, out, cursor) && (k < |merged| ==> range.end < merged[k].start)
    ensures Clear(merged, cursor, range.end)
  {
    forall x | cursor <= x <= range.end ensures !Covers(merged, x) { NotCovered(merged, k, cursor, x); }
  }

  lemma SubtractNext(range: Range, merged: seq<Range>, k: nat, was: seq<Range>, from: int, out: seq<Range>)
    requires Subtracting(range, merged, k, was, from) && k < |merged|
    requires from <= merged[k].end && merged[k].start <= range.end
    requires out == if merged[k].start > from
      then was + [Range(from, if merged[k].start - 1 < range.end then merged[k].start - 1 else range.end)] else was
    ensures Subtracting(range, merged, k + 1, out, merged[k].end + 1)
  {
    forall x ensures Covers(out, x) <==> range.start <= x <= range.end && x < merged[k].end + 1 && !Covers(merged, x) {
      SubtractStep(merged, k, range, from, was, out, x);
    }
  }

  lemma SubtractLast(range: Range, merged: seq<Range>, k: nat, was: seq<Range>, cursor: int, out: seq<Range>)
    requires Subtracting(range, merged, k, was, cursor) && Clear(merged, cursor, range.end)
    requires out == if cursor <= range.end then was + [Range(cursor, range.end)] else was
    ensures Normal(out) && forall x :: Covers(out, x) <==> range.start <= x <= range.end && !Covers(merged, x)
  {
    forall x ensures Covers(out, x) <==> range.start <= x <= range.end && !Covers(merged, x) {
      CoversConcat(was, [Range(cursor, range.end)], x);
      CoversOne(Range(cursor, range.end), x);
    }
  }

  lemma NotCovered(merged: seq<Range>, k: nat, cursor: int, x: int)
    requires Normal(merged) && k <= |merged| && cursor <= x
    requires forall i :: 0 <= i < k ==> merged[i].end < cursor
    requires k < |merged| ==> x < merged[k].start
    ensures !Covers(merged, x)
  {
  }

  lemma SubtractStep(merged: seq<Range>, k: nat, range: Range, from: int, was: seq<Range>, out: seq<Range>, x: int)
    requires Normal(merged) && k < |merged| && range.start <= from && range.start <= range.end
    requires from <= merged[k].end && merged[k].start <= range.end
    requires forall i :: 0 <= i < k ==> merged[i].end < from
    requires Covers(was, x) <==> range.start <= x <= range.end && x < from && !Covers(merged, x)
    requires out == if merged[k].start > from
      then was + [Range(from, if merged[k].start - 1 < range.end then merged[k].start - 1 else range.end)] else was
    ensures Covers(out, x) <==> range.start <= x <= range.end && x < merged[k].end + 1 && !Covers(merged, x)
  {
    var piece := Range(from, if merged[k].start - 1 < range.end then merged[k].start - 1 else range.end);
    CoversConcat(was, [piece], x);
    CoversOne(piece, x);
    if from <= x < merged[k].start { NotCovered(merged, k, from, x); }
    if merged[k].start <= x <= merged[k].end { assert Covers(merged, x); }
  }

  /** What two ranges have in common, empty when it starts after its end. */
  function Overlap(p: Range, q: Range): Range {
    Range(if p.start > q.start then p.start else q.start, if p.end < q.end then p.end else q.end)
  }

  /** intersectRanges: the integers in both lists, in normal form. */
  method IntersectRanges(left: seq<Range>, right: seq<Range>) returns (out: seq<Range>)
    ensures Normal(out)
    ensures forall x :: Covers(out, x) <==> Covers(left, x) && Covers(right, x)
  {
    var a := MergeRanges(left);
    var b := MergeRanges(right);
    out := [];
    var i, j := 0, 0;
    while i < |a| && j < |b|
      invariant 0 <= i <= |a| && 0 <= j <= |b| && Intersecting(a, b, out, a[i..], b[j..])
      decreases |a| - i + |b| - j
    {
      var start := if a[i].start > b[j].start then a[i].start else b[j].start;
      var end := if a[i].end < b[j].end then a[i].end else b[j].end;
      ghost var was := out;
      if start <= end { out := out + [Range(start, end)]; }
      IntersectNext(a, b, was, out, a[i..], b[j..]);
      if a[i].end < b[j].end { i := i + 1; } else { j := j + 1; }
    }
    NothingShared(a, b, out, a[i..], b[j..]);
  }

  /** What is in both lists is in `out`, which is in normal form and lies before what is
      left of both, or in that. */
  ghost predicate Intersecting(a: seq<Range>, b: seq<Range>, out: seq<Range>, restA: seq<Range>, restB: seq<Range>) {
    && Normal(out) && Normal(restA) && Normal(restB)
    && (out != [] && restA != [] && restB != [] ==>
          out[|out| - 1].end + 1 < restA[0].start || out[|out| - 1].end + 1 < restB[0].start)
    && forall x :: Covers(out, x) || (Covers(restA, x) && Covers(restB, x)) <==> Covers(a, x) && Covers(b, x)
  }

  lemma NothingShared(a: seq<Range>, b: seq<Range>, out: seq<Range>, restA: seq<Range>, restB: seq<Range>)
    requires Intersecting(a, b, out, restA, restB) && (restA == [] || restB == [])
    ensures forall x :: Covers(out, x) <==> Covers(a, x) && Covers(b, x)
  {
  }

  /** One turn: what the first two ranges share is taken, and the one that ends first goes. */
  lemma IntersectNext(a: seq<Range>, b: seq<Range>, was: seq<Range>, out: seq<Range>, restA: seq<Range>,
      restB: seq<Range>)
    requires restA != [] && restB != [] && Intersecting(a, b, was, restA, restB)
    requires var both := Overlap(restA[0], restB[0]); out == if both.start <= both.end then was + [both] else was
    ensures if restA[0].end < restB[0].end then Intersecting(a, b, out, restA[1..], restB)
      else Intersecting(a, b, out, restA, restB[1..])
  {
    var nextA, nextB := if restA[0].end < restB[0].end then restA[1..] else restA,
      if restA[0].end < restB[0].end then restB else restB[1..];
    forall x ensures Covers(out, x) || (Covers(nextA, x) && Covers(nextB, x)) <==> Covers(a, x) && Covers(b, x) {
      IntersectStep(restA, restB, was, out, x);
    }
  }

  lemma IntersectStep(a: seq<Range>, b: seq<Range>, was: seq<Range>, out: seq<Range>, x: int)
    requires Normal(a) && Normal(b) && a != [] && b != []
    requires var both := Overlap(a[0], b[0]); out == if both.start <= both.end then was + [both] else was
    ensures (Covers(out, x)
          || (Covers(if a[0].end < b[0].end then a[1..] else a, x)
             && Covers(if a[0].end < b[0].end then b else b[1..], x)))
       <==> Covers(was, x) || (Covers(a, x) && Covers(b, x))
  {
    var both := Overlap(a[0], b[0]);
    CoversConcat(was, [both], x);
    CoversOne(both, x);
    assert a == a[..1] + a[1..] && b == b[..1] + b[1..];
    CoversConcat(a[..1], a[1..], x);
    CoversConcat(b[..1], b[1..], x);
    TailAbove(a, x);
    TailAbove(b, x);
  }
}
