/** Rows addressed by integer positions, read in ascending order of position.
    Both queues keep their items this way, so the lemmas about runs of positions
    are shared. */
module Positions {

  datatype Option<+T> = None | Some(value: T)

  datatype Result<+T, +E> = Ok(value: T) | Err(error: E)

  /** What a lookup of position `k` finds. */
  function At<V>(rows: map<int, V>, k: int): Option<V> {
    if k in rows then Some(rows[k]) else None
  }

  /** The rows stored at positions `lo .. hi`, holes skipped. */
  function Span<V>(rows: map<int, V>, lo: int, hi: int): seq<V>
    decreases hi - lo
  {
    if lo >= hi then []
    else (if lo in rows then [rows[lo]] else []) + Span(rows, lo + 1, hi)
  }

  predicate Within<V>(rows: map<int, V>, lo: int, hi: int) {
    forall k :: k in rows ==> lo <= k < hi
  }

  lemma {:induction false} SpanSplit<V>(rows: map<int, V>, lo: int, mid: int, hi: int)
    requires lo <= mid <= hi
    ensures Span(rows, lo, hi) == Span(rows, lo, mid) + Span(rows, mid, hi)
    decreases mid - lo
  {
    if lo < mid {
      SpanSplit(rows, lo + 1, mid, hi);
    }
  }

  /** Equal rows on two stretches of the same width, possibly shifted, read the same. */
  lemma {:induction false} SpanShift<V>(a: map<int, V>, b: map<int, V>, lo: int, hi: int, d: int)
    requires forall k :: lo <= k < hi ==> At(a, k) == At(b, k + d)
    ensures Span(a, lo, hi) == Span(b, lo + d, hi + d)
    decreases hi - lo
  {
    if lo < hi {
      assert At(a, lo) == At(b, lo + d);
      SpanShift(a, b, lo + 1, hi, d);
    }
  }

  /** A run without holes has one row for each position, another has fewer. */
  lemma {:induction false} SpanCount<V>(rows: map<int, V>, lo: int, hi: int)
    requires lo <= hi
    ensures |Span(rows, lo, hi)| <= hi - lo
    ensures |Span(rows, lo, hi)| == hi - lo <==> forall k :: lo <= k < hi ==> k in rows
    decreases hi - lo
  {
    if lo < hi { SpanCount(rows, lo + 1, hi); }
  }

  lemma SpanSame<V>(a: map<int, V>, b: map<int, V>, lo: int, hi: int)
    requires forall k :: lo <= k < hi ==> At(a, k) == At(b, k)
    ensures Span(a, lo, hi) == Span(b, lo, hi)
  {
    SpanShift(a, b, lo, hi, 0);
  }

  lemma {:induction false} SpanEmpty<V>(rows: map<int, V>, lo: int, hi: int)
    requires forall k :: lo <= k < hi ==> k !in rows
    ensures Span(rows, lo, hi) == []
    decreases hi - lo
  {
    if lo < hi {
      SpanEmpty(rows, lo + 1, hi);
    }
  }

  /** Bounds that contain every row are interchangeable. */
  lemma SpanBounds<V>(rows: map<int, V>, a: int, b: int, c: int, d: int)
    requires Within(rows, a, b) && Within(rows, c, d)
    ensures Span(rows, a, b) == Span(rows, c, d)
  {
    var lo, hi := if a < c then a else c, if b > d then b else d;
    if lo <= hi {
      SpanWiden(rows, a, b, lo, hi);
      SpanWiden(rows, c, d, lo, hi);
    }
  }

  lemma SpanWiden<V>(rows: map<int, V>, a: int, b: int, lo: int, hi: int)
    requires Within(rows, a, b) && lo <= a && b <= hi && lo <= hi
    ensures Span(rows, a, b) == Span(rows, lo, hi)
  {
    if a <= b {
      SpanSplit(rows, lo, a, hi);
      SpanSplit(rows, a, b, hi);
      SpanEmpty(rows, lo, a);
      SpanEmpty(rows, b, hi);
    } else {
      SpanEmpty(rows, lo, hi);
    }
  }

  /** One position singled out of a run. */
  lemma SpanAt<V>(rows: map<int, V>, lo: int, at: int, hi: int)
    requires lo <= at < hi
    ensures Span(rows, lo, hi)
         == Span(rows, lo, at) + (if at in rows then [rows[at]] else []) + Span(rows, at + 1, hi)
  {
    SpanSplit(rows, lo, at, hi);
  }

  /** The total of the sizes stored at positions `lo .. hi`. */
  function Sum(sizes: map<int, nat>, lo: int, hi: int): nat
    decreases hi - lo
  {
    if lo >= hi then 0
    else (if lo in sizes then sizes[lo] else 0) + Sum(sizes, lo + 1, hi)
  }

  lemma {:induction false} SumSplit(sizes: map<int, nat>, lo: int, mid: int, hi: int)
    requires lo <= mid <= hi
    ensures Sum(sizes, lo, hi) == Sum(sizes, lo, mid) + Sum(sizes, mid, hi)
    decreases mid - lo
  {
    if lo < mid {
      SumSplit(sizes, lo + 1, mid, hi);
    }
  }

  lemma {:induction false} SumShift(a: map<int, nat>, b: map<int, nat>, lo: int, hi: int, d: int)
    requires forall k :: lo <= k < hi ==> At(a, k) == At(b, k + d)
    ensures Sum(a, lo, hi) == Sum(b, lo + d, hi + d)
    decreases hi - lo
  {
    if lo < hi {
      assert At(a, lo) == At(b, lo + d);
      SumShift(a, b, lo + 1, hi, d);
    }
  }

  lemma {:induction false} SumEmpty(sizes: map<int, nat>, lo: int, hi: int)
    requires forall k :: lo <= k < hi ==> k !in sizes
    ensures Sum(sizes, lo, hi) == 0
    decreases hi - lo
  {
    if lo < hi {
      SumEmpty(sizes, lo + 1, hi);
    }
  }

  lemma SumWiden(sizes: map<int, nat>, a: int, b: int, lo: int, hi: int)
    requires Within(sizes, a, b) && lo <= a && b <= hi && lo <= hi
    ensures Sum(sizes, a, b) == Sum(sizes, lo, hi)
  {
    if a <= b {
      SumSplit(sizes, lo, a, hi);
      SumSplit(sizes, a, b, hi);
      SumEmpty(sizes, lo, a);
      SumEmpty(sizes, b, hi);
    } else {
      SumEmpty(sizes, lo, hi);
    }
  }

  lemma SumBounds(sizes: map<int, nat>, a: int, b: int, c: int, d: int)
    requires Within(sizes, a, b) && Within(sizes, c, d)
    ensures Sum(sizes, a, b) == Sum(sizes, c, d)
  {
    var lo, hi := if a < c then a else c, if b > d then b else d;
    if lo <= hi {
      SumWiden(sizes, a, b, lo, hi);
      SumWiden(sizes, c, d, lo, hi);
    }
  }

  /** One size taken out of, or put into, a total. */
  lemma SumWithout(sizes: map<int, nat>, at: int, lo: int, hi: int)
    requires lo <= at < hi
    ensures Sum(sizes, lo, hi) == Sum(sizes - {at}, lo, hi) + (if at in sizes then sizes[at] else 0)
  {
    SumSplit(sizes, lo, at, hi);
    SumSplit(sizes - {at}, lo, at, hi);
    SumShift(sizes, sizes - {at}, lo, at, 0);
    SumShift(sizes, sizes - {at}, at + 1, hi, 0);
  }
}
