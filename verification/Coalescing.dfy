/** The order in which items of one coalescing key supersede each other. */
module Coalescing {
  import opened Positions

  /** Coalescing metadata; the sequence is present only on items a session has numbered. */
  datatype Order = Order(sequence: Option<int>, eventTime: int, outer: int, eventId: int)

  /** compareCoalescingOrder: sequences decide only when both sides have one and they differ. */
  function Compare(left: Order, right: Order): int {
    if left.sequence.Some? && right.sequence.Some? && left.sequence != right.sequence then
      if left.sequence.value < right.sequence.value then -1 else 1
    else if left.eventTime != right.eventTime then
      if left.eventTime < right.eventTime then -1 else 1
    else if left.outer != right.outer then left.outer - right.outer
    else if left.eventId == right.eventId then 0
    else if left.eventId < right.eventId then -1
    else 1
  }

  predicate Less(a: Order, b: Order) { Compare(a, b) < 0 }

  lemma Antisymmetric(a: Order, b: Order)
    ensures Less(a, b) <==> Compare(b, a) > 0
    ensures Compare(a, b) == 0 <==> Compare(b, a) == 0
    ensures !Less(a, a)
  {
  }

  /** The later order is the one a session numbered higher; without two different numbers, the
      one of the later event, then of the later outer event, then of the greater id. */
  lemma LessExactly(a: Order, b: Order)
    ensures a.sequence.Some? && b.sequence.Some? && a.sequence.value < b.sequence.value ==> Less(a, b)
    ensures a.sequence.None? || b.sequence.None? || a.sequence == b.sequence ==>
      (Less(a, b) <==>
        || a.eventTime < b.eventTime
        || (a.eventTime == b.eventTime && a.outer < b.outer)
        || (a.eventTime == b.eventTime && a.outer == b.outer && a.eventId < b.eventId))
  {
  }

  /** Which of three orders carry a sequence decides whether they can form a cycle: they
      can exactly when two of them do. */
  lemma TransitiveExactly(a: bool, b: bool, c: bool)
    ensures (forall x: Order, y: Order, z: Order ::
               (x.sequence.Some? == a && y.sequence.Some? == b && z.sequence.Some? == c
                && Less(x, y) && Less(y, z)) ==> Less(x, z))
      <==> (if a then 1 else 0) + (if b then 1 else 0) + (if c then 1 else 0) != 2
  {
    var n := (if a then 1 else 0) + (if b then 1 else 0) + (if c then 1 else 0);
    if n == 2 {
      var x, y, z := CycleOf(a, b, c);
      assert Less(x, y) && Less(y, z) && !Less(x, z);
    } else {
      forall x: Order, y: Order, z: Order |
        x.sequence.Some? == a && y.sequence.Some? == b && z.sequence.Some? == c && Less(x, y) && Less(y, z)
        ensures Less(x, z)
      {
      }
    }
  }

  /** Two numbered orders against the clock and an unnumbered one between them. */
  lemma CycleOf(a: bool, b: bool, c: bool) returns (x: Order, y: Order, z: Order)
    requires (if a then 1 else 0) + (if b then 1 else 0) + (if c then 1 else 0) == 2
    ensures x.sequence.Some? == a && y.sequence.Some? == b && z.sequence.Some? == c
    ensures Less(x, y) && Less(y, z) && Less(z, x)
  {
    var first, second, plain := Order(Some(1), 10, 0, 0), Order(Some(2), 5, 0, 0), Order(None, 7, 0, 0);
    if !c { x, y, z := first, second, plain; }
    else if !b { x, y, z := second, plain, first; }
    else { x, y, z := plain, first, second; }
  }
}
