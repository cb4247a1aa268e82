/** Reading a relay's whole history through filters that return bounded pages:
    intervals of seconds are bisected until a page is not full. */
module History {
  import opened Positions
  import opened Ranges

  const PAGE_SIZE := 16
  const MAX_PAGE_SIZE := 256

  datatype Event = Event(createdAt: int, id: int)

  /** A filter's inclusive bounds and its page limit. */
  datatype Interval = Interval(since: int, until: int, limit: int) {
    predicate Has(x: int) { since <= x <= until }
    function Width(): int { until - since + 1 }
  }

  datatype Status = Eose | Satisfied | Failed

  /** What one page query comes back with; `Thrown` is a rejected call or an oversized page. */
  datatype Answer = Thrown | Page(result: seq<Event>, hasErrors: bool, status: Status)

  /** A relay: its answer to the n-th query, whatever it is. */
  type Relay = (nat, Interval) -> Answer

  /** An answer that ends the reading: a failure, or a second still full at the largest limit. */
  predicate Ends(answer: Answer, iv: Interval) {
    answer.Thrown? || answer.hasErrors || answer.status.Failed?
    || ((answer.status.Satisfied? || |answer.result| >= iv.limit) && iv.since >= iv.until && iv.limit >= MAX_PAGE_SIZE)
  }

  /** Every query was answered by a page without errors, and none of them was full for a
      single second at the largest limit. */
  ghost predicate Unhindered(relay: Relay, asked: seq<Interval>) {
    forall n :: 0 <= n < |asked| ==> Usable(relay(n, asked[n]), asked[n])
  }

  ghost predicate Usable(answer: Answer, iv: Interval) {
    && answer.Page? && !answer.hasErrors && (answer.status.Eose? || answer.status.Satisfied?)
    && (answer.status.Satisfied? || |answer.result| >= iv.limit ==> iv.since < iv.until || iv.limit < 256)
  }

  predicate EventBefore(a: Event, b: Event) {
    a.createdAt < b.createdAt || (a.createdAt == b.createdAt && a.id <= b.id)
  }

  ghost predicate InOrder(events: seq<Event>) {
    forall i, j :: 0 <= i < j < |events| ==> EventBefore(events[i], events[j])
  }

  /** The relay returns only events its filter asks for. */
  ghost predicate Filters(relay: Relay) {
    forall n: nat, iv: Interval, e: Event :: relay(n, iv).Page? && e in relay(n, iv).result ==> iv.Has(e.createdAt)
  }

  /** An end-of-stored-events answer below the limit holds every stored match once. */
  ghost predicate AnswersFully(relay: Relay, stored: set<Event>) {
    forall n: nat, iv: Interval ::
      relay(n, iv).Page? && !relay(n, iv).hasErrors && relay(n, iv).status.Eose? && |relay(n, iv).result| < iv.limit
      ==> forall e: Event :: multiset(relay(n, iv).result)[e] == if e in stored && iv.Has(e.createdAt) then 1 else 0
  }

  /** The stored events that a filter asks for. */
  function Matches(stored: set<Event>, iv: Interval): set<Event> {
    set e | e in stored && iv.Has(e.createdAt)
  }

  ghost predicate NoRepeats(events: seq<Event>) {
    forall i, j :: 0 <= i < j < |events| ==> events[i] != events[j]
  }

  /** A relay that answers every filter with as many different stored matches as there are
      and the limit allows, and calls a page cut short only when it is full. */
  ghost predicate Truthful(relay: Relay, stored: set<Event>) {
    forall n: nat, iv: Interval :: Honours(relay(n, iv), stored, iv)
  }

  ghost predicate Honours(answer: Answer, stored: set<Event>, iv: Interval) {
    && answer.Page? && !answer.hasErrors && !answer.status.Failed?
    && NoRepeats(answer.result) && (forall e :: e in answer.result ==> e in stored && iv.Has(e.createdAt))
    && (iv.limit > 0 ==>
          |answer.result| == if |Matches(stored, iv)| < iv.limit then |Matches(stored, iv)| else iv.limit)
    && (answer.status.Satisfied? ==> |answer.result| >= iv.limit)
  }

  /** A second that holds as many stored events as the largest page. */
  ghost predicate Crowded(stored: set<Event>, x: int) {
    |set e | e in stored && e.createdAt == x| >= 256
  }

  // ------------------------------------------------------------- the stack

  ghost predicate OnStack(intervals: seq<Interval>, x: int) {
    exists k :: 0 <= k < |intervals| && intervals[k].Has(x)
  }

  /** Limits grow only on one-second intervals, by doubling from 16 to 256. */
  predicate WellFormed(iv: Interval) {
    && iv.since <= iv.until
    && (iv.limit == 16 || (iv.since == iv.until && iv.limit in {32, 64, 128, 256}))
  }

  /** The most queries an interval can still cost. */
  function Cost(iv: Interval): int {
    if iv.limit == 16 then 6 * iv.Width() - 1
    else if iv.limit == 32 then 4
    else if iv.limit == 64 then 3
    else if iv.limit == 128 then 2
    else 1
  }

  function StackCost(intervals: seq<Interval>): int {
    if intervals == [] then 0
    else StackCost(intervals[..|intervals| - 1]) + Cost(intervals[|intervals| - 1])
  }

  predicate Apart(a: Interval, b: Interval) {
    a.until < b.since || b.until < a.since
  }

  /** Two seconds belong to one starting interval. */
  ghost predicate SameStart(starts: seq<Range>, x: int, y: int) {
    exists i :: 0 <= i < |starts| && starts[i].start <= x <= starts[i].end && starts[i].start <= y <= starts[i].end
  }

  /** Covered seconds and stacked intervals are disjoint and together the starting intervals. */
  ghost predicate Partition(starts: seq<Range>, intervals: seq<Interval>, covered: seq<Range>) {
    && (forall k :: 0 <= k < |intervals| ==> WellFormed(intervals[k]))
    && (forall k :: 0 <= k < |intervals| ==> SameStart(starts, intervals[k].since, intervals[k].until))
    && (forall k, l :: 0 <= k < l < |intervals| ==> Apart(intervals[k], intervals[l]))
    && (forall x :: Covers(starts, x) <==> Covers(covered, x) || OnStack(intervals, x))
    && (forall x :: Covers(covered, x) ==> !OnStack(intervals, x))
  }

  /** Within one starting interval the stack runs from newest to oldest, its top. */
  ghost predicate StackOrder(starts: seq<Range>, intervals: seq<Interval>) {
    forall k, l :: 0 <= k < l < |intervals| && SameStart(starts, intervals[k].since, intervals[l].since)
      ==> intervals[l].until < intervals[k].since
  }

  /** Within one starting interval, events are processed in time order. */
  ghost predicate EventOrder(starts: seq<Range>, processed: seq<Event>) {
    forall i, j :: 0 <= i < j < |processed| ==>
      SameStart(starts, processed[i].createdAt, processed[j].createdAt) ==> EventBefore(processed[i], processed[j])
  }

  /** Within one starting interval, everything processed is older than what is stacked. */
  ghost predicate OlderThanStack(starts: seq<Range>, intervals: seq<Interval>, processed: seq<Event>) {
    forall i, k :: 0 <= i < |processed| && 0 <= k < |intervals| ==>
      SameStart(starts, processed[i].createdAt, intervals[k].since) ==> processed[i].createdAt < intervals[k].since
  }

  /** Exactly the stored events of covered seconds have been processed, each once. */
  ghost predicate Once(stored: set<Event>, covered: seq<Range>, processed: seq<Event>) {
    forall e: Event :: multiset(processed)[e] == if e in stored && Covers(covered, e.createdAt) then 1 else 0
  }

  // ---------------------------------------------------------------- lemmas

  lemma OnStackPush(rest: seq<Interval>, iv: Interval, x: int)
    ensures OnStack(rest + [iv], x) <==> OnStack(rest, x) || iv.Has(x)
  {
    if OnStack(rest, x) {
      var k :| 0 <= k < |rest| && rest[k].Has(x);
      assert (rest + [iv])[k].Has(x);
    }
    if iv.Has(x) { assert (rest + [iv])[|rest|] == iv; }
  }

  lemma StackCostPush(rest: seq<Interval>, iv: Interval)
    ensures StackCost(rest + [iv]) == StackCost(rest) + Cost(iv)
  {
  }

  lemma SameStartBetween(starts: seq<Range>, x: int, y: int, z: int)
    requires SameStart(starts, x, z) && x <= y <= z
    ensures SameStart(starts, x, y) && SameStart(starts, y, z) && Covers(starts, y)
  {
  }

  /** The two halves cover the same seconds and together cost one query less. */
  lemma BisectStack(rest: seq<Interval>, iv: Interval, middle: int)
    requires iv.since <= middle < iv.until && iv.limit == 16
    ensures var next := rest + [Interval(middle + 1, iv.until, 16), Interval(iv.since, middle, 16)];
      StackCost(next) + 1 == StackCost(rest + [iv]) && forall x :: OnStack(next, x) <==> OnStack(rest + [iv], x)
  {
    var newer, older := Interval(middle + 1, iv.until, 16), Interval(iv.since, middle, 16);
    var was, next := rest + [iv], rest + [newer, older];
    assert next == (rest + [newer]) + [older];
    StackCostPush(rest, iv);
    StackCostPush(rest, newer);
    StackCostPush(rest + [newer], older);
    forall x ensures OnStack(next, x) <==> OnStack(was, x) {
      OnStackPush(rest, iv, x);
      OnStackPush(rest, newer, x);
      OnStackPush(rest + [newer], older, x);
    }
  }

  /** Replacing the popped interval by its two halves, older half on top. */
  lemma BisectPartition(starts: seq<Range>, rest: seq<Interval>, iv: Interval, middle: int, covered: seq<Range>)
    requires Partition(starts, rest + [iv], covered)
    requires iv.since <= middle < iv.until && iv.limit == 16
    ensures var next := rest + [Interval(middle + 1, iv.until, 16), Interval(iv.since, middle, 16)];
      Partition(starts, next, covered) && StackCost(next) + 1 == StackCost(rest + [iv])
  {
    var newer, older := Interval(middle + 1, iv.until, 16), Interval(iv.since, middle, 16);
    var was, next := rest + [iv], rest + [newer, older];
    BisectStack(rest, iv, middle);
    assert was[|rest|] == iv;
    SameStartBetween(starts, iv.since, middle, iv.until);
    SameStartBetween(starts, iv.since, middle + 1, iv.until);
    forall k | 0 <= k < |next| ensures WellFormed(next[k]) && SameStart(starts, next[k].since, next[k].until) {
      if k < |rest| { assert next[k] == was[k]; }
    }
    forall k, l | 0 <= k < l < |next| ensures Apart(next[k], next[l]) {
      if k < |rest| {
        assert next[k] == was[k] && Apart(was[k], iv);
        if l < |rest| { assert next[l] == was[l]; }
      }
    }
  }

  lemma BisectOrder(starts: seq<Range>, rest: seq<Interval>, iv: Interval, middle: int)
    requires Normal(starts) && StackOrder(starts, rest + [iv]) && SameStart(starts, iv.since, iv.until)
    requires iv.since <= middle < iv.until
    ensures StackOrder(starts, rest + [Interval(middle + 1, iv.until, 16), Interval(iv.since, middle, 16)])
  {
    var was, next := rest + [iv], rest + [Interval(middle + 1, iv.until, 16), Interval(iv.since, middle, 16)];
    assert was[|rest|] == iv;
    SameStartBetween(starts, iv.since, middle + 1, iv.until);
    forall k, l | 0 <= k < l < |next| && SameStart(starts, next[k].since, next[l].since)
      ensures next[l].until < next[k].since
    {
      if k < |rest| {
        assert next[k] == was[k];
        if l < |rest| {
          assert next[l] == was[l];
        }
      }
    }
  }

  /** Asking a saturated second again with twice the limit. */
  lemma Double(starts: seq<Range>, rest: seq<Interval>, iv: Interval, covered: seq<Range>)
    requires Partition(starts, rest + [iv], covered) && StackOrder(starts, rest + [iv])
    requires iv.since == iv.until && iv.limit < 256
    ensures var next := rest + [iv.(limit := iv.limit * 2)];
      Partition(starts, next, covered) && StackOrder(starts, next)
      && StackCost(next) + 1 == StackCost(rest + [iv])
  {
    var was, next := rest + [iv], rest + [iv.(limit := iv.limit * 2)];
    StackCostPush(rest, iv);
    StackCostPush(rest, iv.(limit := iv.limit * 2));
    assert was[|rest|] == iv;
    forall k | 0 <= k < |next|
      ensures WellFormed(next[k]) && next[k].since == was[k].since && next[k].until == was[k].until
    {
      assert WellFormed(was[k]);
    }
    forall x ensures OnStack(next, x) <==> OnStack(was, x) {
      OnStackPush(rest, iv, x);
      OnStackPush(rest, iv.(limit := iv.limit * 2), x);
    }
    forall k, l | 0 <= k < l < |next| ensures Apart(next[k], next[l]) {
      assert Apart(was[k], was[l]);
    }
  }

  /** A complete page moves its interval from the stack to the covered ranges. */
  lemma Cover(starts: seq<Range>, rest: seq<Interval>, iv: Interval, covered: seq<Range>)
    requires Partition(starts, rest + [iv], covered) && StackOrder(starts, rest + [iv])
    ensures Partition(starts, rest, covered + [Range(iv.since, iv.until)]) && StackOrder(starts, rest)
    ensures StackCost(rest) + 1 <= StackCost(rest + [iv])
    ensures forall x :: Covers(covered + [Range(iv.since, iv.until)], x) <==> Covers(covered, x) || iv.Has(x)
    ensures forall x :: iv.Has(x) ==> !Covers(covered, x)
  {
    var was := rest + [iv];
    StackCostPush(rest, iv);
    assert was[|rest|] == iv && WellFormed(was[|rest|]);
    forall x
      ensures OnStack(was, x) <==> OnStack(rest, x) || iv.Has(x)
      ensures Covers(covered + [Range(iv.since, iv.until)], x) <==> Covers(covered, x) || iv.Has(x)
      ensures iv.Has(x) ==> !OnStack(rest, x)
    {
      OnStackPush(rest, iv, x);
      CoversConcat(covered, [Range(iv.since, iv.until)], x);
      CoversOne(Range(iv.since, iv.until), x);
      forall k | 0 <= k < |rest| ensures Apart(rest[k], iv) { assert Apart(was[k], was[|rest|]); }
    }
    forall k | 0 <= k < |rest| ensures rest[k] == was[k] {}
    forall k, l | 0 <= k < l < |rest| ensures Apart(rest[k], rest[l]) {
      assert Apart(was[k], was[l]);
    }
  }

  lemma BisectOlder(starts: seq<Range>, rest: seq<Interval>, iv: Interval, middle: int, processed: seq<Event>)
    requires Normal(starts) && OlderThanStack(starts, rest + [iv], processed) && SameStart(starts, iv.since, iv.until)
    requires iv.since <= middle < iv.until
    ensures OlderThanStack(starts, rest + [Interval(middle + 1, iv.until, 16), Interval(iv.since, middle, 16)],
      processed)
  {
    var was, next := rest + [iv], rest + [Interval(middle + 1, iv.until, 16), Interval(iv.since, middle, 16)];
    assert was[|rest|] == iv;
    SameStartBetween(starts, iv.since, middle + 1, iv.until);
    forall i, k | 0 <= i < |processed| && 0 <= k < |next| && SameStart(starts, processed[i].createdAt, next[k].since)
      ensures processed[i].createdAt < next[k].since
    {
      if k < |rest| {
        assert next[k] == was[k];
      }
    }
  }

  lemma DoubleOlder(starts: seq<Range>, rest: seq<Interval>, iv: Interval, limit: int, processed: seq<Event>)
    ensures OlderThanStack(starts, rest + [iv], processed) ==>
      OlderThanStack(starts, rest + [iv.(limit := limit)], processed)
  {
    var was, next := rest + [iv], rest + [iv.(limit := limit)];
    forall k | 0 <= k < |next| ensures next[k].since == was[k].since {}
  }

  /** Processing a page of the popped interval keeps the order of its starting interval. */
  lemma ProcessOrder(starts: seq<Range>, rest: seq<Interval>, iv: Interval, processed: seq<Event>, page: seq<Event>)
    requires Normal(starts) && SameStart(starts, iv.since, iv.until) && StackOrder(starts, rest + [iv])
    requires EventOrder(starts, processed) && OlderThanStack(starts, rest + [iv], processed)
    requires InOrder(page) && forall e :: e in page ==> iv.Has(e.createdAt)
    ensures EventOrder(starts, processed + page) && OlderThanStack(starts, rest, processed + page)
  {
    var was, all := rest + [iv], processed + page;
    assert was[|rest|] == iv;
    forall j | |processed| <= j < |all|
      ensures iv.Has(all[j].createdAt) && SameStart(starts, all[j].createdAt, iv.since)
    {
      assert all[j] in page;
      SameStartBetween(starts, iv.since, all[j].createdAt, iv.until);
    }
    forall i, j | 0 <= i < j < |all| && SameStart(starts, all[i].createdAt, all[j].createdAt)
      ensures EventBefore(all[i], all[j])
    {
      if i < |processed| <= j {
      }
    }
    forall i, k | 0 <= i < |all| && 0 <= k < |rest| && SameStart(starts, all[i].createdAt, rest[k].since)
      ensures all[i].createdAt < rest[k].since
    {
      assert rest[k] == was[k];
      if |processed| <= i {
        assert SameStart(starts, iv.since, all[i].createdAt);
        assert SameStart(starts, was[k].since, was[|rest|].since);
      }
    }
  }

  // ------------------------------------------------- the starting intervals

  function Seconds(rs: seq<Range>): int {
    if rs == [] then 0 else Seconds(rs[..|rs| - 1]) + rs[|rs| - 1].end - rs[|rs| - 1].start + 1
  }

  lemma {:induction false} SecondsBound(rs: seq<Range>, since: int, until: int)
    requires Normal(rs) && since <= until + 1
    requires forall i :: 0 <= i < |rs| ==> since <= rs[i].start && rs[i].end <= until
    ensures |rs| <= Seconds(rs) <= until - since + 1
  {
    if rs != [] {
      var last := rs[|rs| - 1];
      SecondsBound(rs[..|rs| - 1], since, last.start - 1);
    }
  }

  function StartStack(starts: seq<Range>): seq<Interval> {
    seq(|starts|, i requires 0 <= i < |starts| => Interval(starts[i].start, starts[i].end, PAGE_SIZE))
  }

  lemma {:induction false} StartCost(starts: seq<Range>)
    ensures StackCost(StartStack(starts)) == 6 * Seconds(starts) - |starts|
  {
    if starts != [] {
      var n := |starts| - 1;
      StartCost(starts[..n]);
      assert StartStack(starts) == StartStack(starts[..n]) + [Interval(starts[n].start, starts[n].end, PAGE_SIZE)];
      StackCostPush(StartStack(starts[..n]), Interval(starts[n].start, starts[n].end, PAGE_SIZE));
    }
  }

  lemma StartPartition(starts: seq<Range>)
    requires Normal(starts)
    ensures Partition(starts, StartStack(starts), []) && StackOrder(starts, StartStack(starts))
  {
    var stack := StartStack(starts);
    forall x ensures Covers(starts, x) <==> OnStack(stack, x) {
      if Covers(starts, x) {
        var i :| 0 <= i < |starts| && starts[i].start <= x <= starts[i].end;
        assert stack[i].Has(x);
      }
      if OnStack(stack, x) {
        var k :| 0 <= k < |stack| && stack[k].Has(x);
        assert starts[k].start <= x <= starts[k].end;
      }
    }
  }

  lemma {:induction false} StackCostAtLeast(intervals: seq<Interval>)
    requires forall k :: 0 <= k < |intervals| ==> WellFormed(intervals[k])
    ensures StackCost(intervals) >= |intervals|
  {
    if intervals != [] {
      StackCostAtLeast(intervals[..|intervals| - 1]);
    }
  }

  // ------------------------------------------------------------ the methods

  lemma FirstStays(e: Event, sorted: seq<Event>, rest: seq<Event>)
    requires InOrder(sorted) && sorted != [] && EventBefore(sorted[0], e)
    requires multiset(rest) == multiset(sorted[1..]) + multiset{e}
    ensures forall q :: q in rest ==> EventBefore(sorted[0], q)
  {
    forall q | q in rest ensures EventBefore(sorted[0], q) {
      assert q in multiset(rest);
      if q != e {
        assert q in multiset(sorted[1..]);
        var i :| 0 <= i < |sorted[1..]| && sorted[1..][i] == q;
        assert sorted[i + 1] == q;
      }
    }
  }

  function InsertEvent(e: Event, sorted: seq<Event>): (r: seq<Event>)
    requires InOrder(sorted)
    ensures InOrder(r) && multiset(r) == multiset(sorted) + multiset{e}
  {
    if sorted == [] || EventBefore(e, sorted[0]) then [e] + sorted
    else
      var rest := InsertEvent(e, sorted[1..]);
      assert sorted == [sorted[0]] + sorted[1..];
      FirstStays(e, sorted, rest);
      [sorted[0]] + rest
  }

  /** The order pages are processed in: by time, then by id. */
  function SortEvents(events: seq<Event>): (r: seq<Event>)
    ensures InOrder(r) && multiset(r) == multiset(events)
  {
    if events == [] then []
    else
      assert events == [events[0]] + events[1..];
      InsertEvent(events[0], SortEvents(events[1..]))
  }

  /** Exactly the stored events of covered seconds have been processed, each once. */
  lemma CoverOnce(stored: set<Event>, covered: seq<Range>, iv: Interval, processed: seq<Event>, page: seq<Event>)
    requires Once(stored, covered, processed)
    requires forall e: Event :: multiset(page)[e] == if e in stored && iv.Has(e.createdAt) then 1 else 0
    requires forall x :: iv.Has(x) ==> !Covers(covered, x)
    ensures Once(stored, covered + [Range(iv.since, iv.until)], processed + page)
  {
    forall e: Event
      ensures multiset(processed + page)[e]
        == if e in stored && Covers(covered + [Range(iv.since, iv.until)], e.createdAt) then 1 else 0
    {
      CoversConcat(covered, [Range(iv.since, iv.until)], e.createdAt);
      CoversOne(Range(iv.since, iv.until), e.createdAt);
    }
  }

  /** Where to start: the request, or what an earlier read left pending, clipped to it. */
  method ResumeIntervals(resume: Option<seq<Range>>, since: int, until: int) returns (starts: seq<Range>)
    ensures Normal(starts)
    ensures forall x :: Covers(starts, x) <==> since <= x <= until && (resume.Some? ==> Covers(resume.value, x))
  {
    var pending := if resume.Some? then resume.value else [Range(since, until)];
    var clipped := [];
    for k := 0 to |pending|
      invariant forall x :: Covers(clipped, x) <==> since <= x <= until && Covers(pending[..k], x)
    {
      var entry := pending[k];
      var start := if since > entry.start then since else entry.start;
      var end := if until < entry.end then until else entry.end;
      ghost var was := clipped;
      if end >= start { clipped := clipped + [Range(start, end)]; }
      assert pending[..k + 1] == pending[..k] + [entry];
      forall x ensures Covers(clipped, x) <==> since <= x <= until && Covers(pending[..k + 1], x) {
        CoversConcat(was, [Range(start, end)], x);
        CoversConcat(pending[..k], [entry], x);
        CoversOne(Range(start, end), x);
        CoversOne(entry, x);
      }
    }
    assert pending[..|pending|] == pending;
    starts := MergeRanges(clipped);
    forall x ensures Covers([Range(since, until)], x) <==> since <= x <= until { CoversOne(Range(since, until), x); }
  }

  /** The stack after the answer for its top interval. */
  function NextStack(intervals: seq<Interval>, answer: Answer): seq<Interval>
    requires intervals != []
  {
    StackAfter(intervals[..|intervals| - 1], intervals[|intervals| - 1], answer)
  }

  function StackAfter(rest: seq<Interval>, iv: Interval, answer: Answer): seq<Interval> {
    if Ends(answer, iv) then rest + [iv]
    else if Saturated(answer, iv) then
      if iv.since < iv.until then
        var middle := iv.since + (iv.until - iv.since) / 2;
        rest + [Interval(middle + 1, iv.until, PAGE_SIZE), Interval(iv.since, middle, PAGE_SIZE)]
      else rest + [iv.(limit := iv.limit * 2)]
    else rest
  }

  predicate Saturated(answer: Answer, iv: Interval)
    requires answer.Page?
  {
    answer.status.Satisfied? || |answer.result| >= iv.limit
  }

  /** What an answer covers: its whole interval, when the page is complete. */
  function NextCovered(answer: Answer, iv: Interval): seq<Range> {
    if Ends(answer, iv) || Saturated(answer, iv) then [] else [Range(iv.since, iv.until)]
  }

  /** The events that are processed: those of complete pages, and of a page that ends the read. */
  function NextEvents(answer: Answer, iv: Interval): seq<Event> {
    if answer.Thrown? || (!Ends(answer, iv) && Saturated(answer, iv)) then [] else SortEvents(answer.result)
  }

  /** One turn: the popped interval is pushed back, split, asked again or covered. */
  method ReadPage(intervals: seq<Interval>, covered: seq<Range>, processed: seq<Event>, answer: Answer)
    returns (intervals': seq<Interval>, covered': seq<Range>, processed': seq<Event>, failed: bool)
    requires intervals != []
    ensures var iv := intervals[|intervals| - 1];
      && intervals' == NextStack(intervals, answer) && covered' == covered + NextCovered(answer, iv)
      && processed' == processed + NextEvents(answer, iv) && failed == Ends(answer, iv)
  {
    var iv, rest := intervals[|intervals| - 1], intervals[..|intervals| - 1];
    intervals', covered', processed', failed := intervals, covered, processed, false;
    if answer.Thrown? {
      failed := true;
    } else if answer.hasErrors || answer.status.Failed? {
      processed' := processed + SortEvents(answer.result);
      failed := true;
    } else if answer.status.Satisfied? || |answer.result| >= iv.limit {
      if iv.since < iv.until {
        var middle := iv.since + (iv.until - iv.since) / 2;
        intervals' := rest + [Interval(middle + 1, iv.until, PAGE_SIZE), Interval(iv.since, middle, PAGE_SIZE)];
      } else if iv.limit < MAX_PAGE_SIZE {
        intervals' := rest + [iv.(limit := iv.limit * 2)];
      } else {
        processed' := processed + SortEvents(answer.result);
        failed := true;
      }
    } else {
      processed' := processed + SortEvents(answer.result);
      covered' := covered + [Range(iv.since, iv.until)];
      intervals' := rest;
    }
  }

  /** Whatever the answer, a turn keeps what holds of the reading, and lowers the cost of the
      stack unless it ends the reading. */
  lemma PageTurn(starts: seq<Range>, intervals: seq<Interval>, covered: seq<Range>, processed: seq<Event>,
                 relay: Relay, n: nat, stored: set<Event>)
    requires Normal(starts) && intervals != []
    requires Consistent(starts, intervals, covered, processed, false, relay, stored)
    ensures var iv := intervals[|intervals| - 1];
      var answer := relay(n, iv);
      && Consistent(starts, NextStack(intervals, answer), covered + NextCovered(answer, iv),
                    processed + NextEvents(answer, iv), Ends(answer, iv), relay, stored)
      && (!Ends(answer, iv) ==> StackCost(NextStack(intervals, answer)) < StackCost(intervals))
      && StackCost(intervals) > 0
  {
    var iv, rest := intervals[|intervals| - 1], intervals[..|intervals| - 1];
    assert intervals == rest + [iv];
    StackCostAtLeast(intervals);
    if Ends(relay(n, iv), iv) {
      LastTurn(starts, rest, iv, covered, processed, relay, n, stored);
    } else {
      NextTurn(starts, rest, iv, covered, processed, relay, n, stored);
    }
  }

  lemma LastTurn(starts: seq<Range>, rest: seq<Interval>, iv: Interval, covered: seq<Range>, processed: seq<Event>,
                 relay: Relay, n: nat, stored: set<Event>)
    requires Normal(starts) && Consistent(starts, rest + [iv], covered, processed, false, relay, stored)
    requires Ends(relay(n, iv), iv)
    ensures var answer := relay(n, iv);
      Consistent(starts, rest + [iv], covered + NextCovered(answer, iv), processed + NextEvents(answer, iv),
        true, relay, stored)
  {
    var answer := relay(n, iv);
    assert covered + [] == covered && processed + [] == processed;
    if answer.Thrown? {
      EndedReading(starts, rest + [iv], covered, processed, relay, stored);
    } else {
      FailedPage(starts, rest, iv, covered, processed, answer, relay, n, stored);
    }
  }

  lemma NextTurn(starts: seq<Range>, rest: seq<Interval>, iv: Interval, covered: seq<Range>, processed: seq<Event>,
                 relay: Relay, n: nat, stored: set<Event>)
    requires Normal(starts) && Consistent(starts, rest + [iv], covered, processed, false, relay, stored)
    requires !Ends(relay(n, iv), iv)
    ensures var answer := relay(n, iv);
      var next := StackAfter(rest, iv, answer);
      && Consistent(starts, next, covered + NextCovered(answer, iv), processed + NextEvents(answer, iv),
           false, relay, stored)
      && StackCost(next) < StackCost(rest + [iv])
  {
    var answer := relay(n, iv);
    if Saturated(answer, iv) {
      SaturatedTurn(starts, rest, iv, covered, processed, answer, relay, stored);
    } else {
      assert StackAfter(rest, iv, answer) == rest && NextCovered(answer, iv) == [Range(iv.since, iv.until)];
      assert NextEvents(answer, iv) == SortEvents(answer.result);
      CompletePage(starts, rest, iv, covered, processed, answer, relay, n, stored);
    }
  }

  /** A full page covers and processes nothing; its interval is split or asked again. */
  lemma SaturatedTurn(starts: seq<Range>, rest: seq<Interval>, iv: Interval, covered: seq<Range>, processed: seq<Event>,
                      answer: Answer, relay: Relay, stored: set<Event>)
    requires Normal(starts) && Consistent(starts, rest + [iv], covered, processed, false, relay, stored)
    requires !Ends(answer, iv) && Saturated(answer, iv)
    ensures covered + NextCovered(answer, iv) == covered && processed + NextEvents(answer, iv) == processed
    ensures var next := StackAfter(rest, iv, answer);
      Consistent(starts, next, covered, processed, false, relay, stored) && StackCost(next) < StackCost(rest + [iv])
  {
    TopIsWellFormed(starts, rest, iv, covered);
    if iv.since < iv.until {
      var middle := iv.since + (iv.until - iv.since) / 2;
      SplitPage(starts, rest, iv, middle, covered, processed, relay, stored);
      var next := rest + [Interval(middle + 1, iv.until, PAGE_SIZE), Interval(iv.since, middle, PAGE_SIZE)];
      assert StackAfter(rest, iv, answer) == next;
    } else {
      assert StackAfter(rest, iv, answer) == rest + [iv.(limit := iv.limit * 2)];
      DoublePage(starts, rest, iv, covered, processed, relay, stored);
    }
  }

  lemma TopIsWellFormed(starts: seq<Range>, rest: seq<Interval>, iv: Interval, covered: seq<Range>)
    requires Partition(starts, rest + [iv], covered)
    ensures iv.since <= iv.until
  {
    assert (rest + [iv])[|rest|] == iv;
  }

  lemma EndedReading(starts: seq<Range>, intervals: seq<Interval>, covered: seq<Range>, processed: seq<Event>,
                     relay: Relay, stored: set<Event>)
    requires Consistent(starts, intervals, covered, processed, false, relay, stored)
    ensures Consistent(starts, intervals, covered, processed, true, relay, stored)
  {
  }

  /** The queries made: each asks for the top interval of the stack that the answers so far
      have left of `start`, and none is made after an answer that ends the reading. */
  ghost predicate Trail(relay: Relay, start: seq<Interval>, asked: seq<Interval>, stacks: seq<seq<Interval>>) {
    && |stacks| == |asked| + 1 && stacks[0] == start
    && (forall i :: 0 <= i < |asked| ==> Turns(relay, i, stacks[i], asked[i], stacks[i + 1]))
    && forall i :: 0 <= i < |asked| - 1 ==> !Ends(relay(i, asked[i]), asked[i])
  }

  /** The i-th query asks for the top of `stack`, and its answer leaves `next`. */
  ghost predicate Turns(relay: Relay, i: nat, stack: seq<Interval>, iv: Interval, next: seq<Interval>) {
    stack != [] && iv == stack[|stack| - 1] && next == NextStack(stack, relay(i, iv))
  }

  function CoveredBy(relay: Relay, asked: seq<Interval>): seq<Range> {
    if asked == [] then []
    else
      var n := |asked| - 1;
      CoveredBy(relay, asked[..n]) + NextCovered(relay(n, asked[n]), asked[n])
  }

  function ProcessedBy(relay: Relay, asked: seq<Interval>): seq<Event> {
    if asked == [] then []
    else
      var n := |asked| - 1;
      ProcessedBy(relay, asked[..n]) + NextEvents(relay(n, asked[n]), asked[n])
  }

  /** The last answer, if there was one, ended the reading. */
  predicate Over(relay: Relay, asked: seq<Interval>) {
    asked != [] && Ends(relay(|asked| - 1, asked[|asked| - 1]), asked[|asked| - 1])
  }

  lemma TrailMore(relay: Relay, start: seq<Interval>, asked: seq<Interval>, stacks: seq<seq<Interval>>, iv: Interval)
    requires Trail(relay, start, asked, stacks) && !Over(relay, asked)
    requires stacks[|asked|] != [] && iv == stacks[|asked|][|stacks[|asked|]| - 1]
    ensures Trail(relay, start, asked + [iv], stacks + [NextStack(stacks[|asked|], relay(|asked|, iv))])
  {
    var n, next := |asked|, NextStack(stacks[|asked|], relay(|asked|, iv));
    var more, longer := asked + [iv], stacks + [next];
    assert Turns(relay, n, stacks[n], iv, next);
    forall i | 0 <= i < |more| ensures Turns(relay, i, longer[i], more[i], longer[i + 1]) {
      if i < n { assert Turns(relay, i, stacks[i], asked[i], stacks[i + 1]); }
    }
    forall i | 0 <= i < |more| - 1 ensures !Ends(relay(i, more[i]), more[i]) { assert more[i] == asked[i]; }
  }

  lemma ReadMore(relay: Relay, asked: seq<Interval>, iv: Interval)
    ensures CoveredBy(relay, asked + [iv]) == CoveredBy(relay, asked) + NextCovered(relay(|asked|, iv), iv)
    ensures ProcessedBy(relay, asked + [iv]) == ProcessedBy(relay, asked) + NextEvents(relay(|asked|, iv), iv)
  {
    assert (asked + [iv])[..|asked|] == asked;
  }

  lemma OverExactly(relay: Relay, start: seq<Interval>, asked: seq<Interval>, stacks: seq<seq<Interval>>)
    requires Trail(relay, start, asked, stacks)
    ensures Over(relay, asked) <==> !Unhindered(relay, asked)
  {
    forall n | 0 <= n < |asked| ensures Usable(relay(n, asked[n]), asked[n]) <==> !Ends(relay(n, asked[n]), asked[n]) {
      UsableExactly(relay(n, asked[n]), asked[n]);
    }
  }

  lemma UsableExactly(answer: Answer, iv: Interval)
    ensures Usable(answer, iv) <==> !Ends(answer, iv)
  {
  }

  /** Along every trail: the seconds are partitioned, events are processed as they should be,
      and every query has been paid for. */
  lemma {:induction false} TrailHolds(starts: seq<Range>, relay: Relay, asked: seq<Interval>,
      stacks: seq<seq<Interval>>, stored: set<Event>)
    requires Normal(starts) && Trail(relay, StartStack(starts), asked, stacks)
    ensures Consistent(starts, stacks[|asked|], CoveredBy(relay, asked), ProcessedBy(relay, asked),
      Over(relay, asked), relay, stored)
    ensures |asked| + (if Over(relay, asked) then 0 else StackCost(stacks[|asked|])) <= 6 * Seconds(starts) - |starts|
    ensures Over(relay, asked) ==> stacks[|asked|] != []
    decreases |asked|
  {
    if asked == [] {
      StartReading(starts, relay, stored);
    } else {
      var n, iv := |asked| - 1, asked[|asked| - 1];
      assert Turns(relay, n, stacks[n], iv, stacks[n + 1]);
      assert CoveredBy(relay, asked) == CoveredBy(relay, asked[..n]) + NextCovered(relay(n, iv), iv);
      assert ProcessedBy(relay, asked) == ProcessedBy(relay, asked[..n]) + NextEvents(relay(n, iv), iv);
      ShorterTrail(relay, StartStack(starts), asked, stacks);
      TrailHolds(starts, relay, asked[..n], stacks[..n + 1], stored);
      PageTurn(starts, stacks[n], CoveredBy(relay, asked[..n]), ProcessedBy(relay, asked[..n]), relay, n, stored);
    }
  }

  lemma ShorterTrail(relay: Relay, start: seq<Interval>, asked: seq<Interval>, stacks: seq<seq<Interval>>)
    requires Trail(relay, start, asked, stacks) && asked != []
    ensures var n := |asked| - 1;
      Trail(relay, start, asked[..n], stacks[..n + 1]) && stacks[..n + 1][n] == stacks[n] && !Over(relay, asked[..n])
  {
  }

  lemma StartReading(starts: seq<Range>, relay: Relay, stored: set<Event>)
    requires Normal(starts)
    ensures Consistent(starts, StartStack(starts), [], [], false, relay, stored)
    ensures StackCost(StartStack(starts)) <= 6 * Seconds(starts) - |starts|
  {
    StartCost(starts);
    StartPartition(starts);
    StackCostAtLeast(StartStack(starts));
  }

  // -------------------------------------------------- a relay that is truthful

  /** As many different matches as there are, are all of them. */
  lemma {:induction false} AllMatches(result: seq<Event>, matches: set<Event>)
    requires NoRepeats(result) && |result| == |matches| && forall e :: e in result ==> e in matches
    ensures forall e: Event :: multiset(result)[e] == if e in matches then 1 else 0
  {
    if result != [] {
      var n := |result| - 1;
      var front, last := result[..n], result[n];
      assert result == front + [last] && last in result;
      forall e | e in front ensures e in matches - {last} {
        var i :| 0 <= i < n && front[i] == e;
        assert result[i] != result[n] && e in result;
      }
      AllMatches(front, matches - {last});
    }
  }

  /** It keeps the promises that the reading rests on. */
  lemma TruthfulKeeps(relay: Relay, stored: set<Event>)
    requires Truthful(relay, stored)
    ensures Filters(relay) && AnswersFully(relay, stored)
  {
    forall n: nat, iv: Interval, e: Event | relay(n, iv).Page? && e in relay(n, iv).result
      ensures iv.Has(e.createdAt)
    {
      assert Honours(relay(n, iv), stored, iv);
    }
    forall n: nat, iv: Interval | relay(n, iv).Page? && |relay(n, iv).result| < iv.limit
      ensures forall e: Event :: multiset(relay(n, iv).result)[e] == if e in stored && iv.Has(e.createdAt) then 1 else 0
    {
      assert Honours(relay(n, iv), stored, iv);
      AllMatches(relay(n, iv).result, Matches(stored, iv));
    }
  }

  lemma CrowdedMatches(stored: set<Event>, iv: Interval, x: int)
    requires iv.Has(x)
    ensures Crowded(stored, x) ==> |Matches(stored, iv)| >= 256
    ensures iv.since == iv.until ==> (Crowded(stored, x) <==> |Matches(stored, iv)| >= 256)
  {
    var here := set e | e in stored && e.createdAt == x;
    var all := Matches(stored, iv);
    assert here <= all;
    Cardinal(here, all);
    if iv.since == iv.until { assert here == all; }
  }

  lemma {:induction false} Cardinal(a: set<Event>, b: set<Event>)
    requires a <= b
    ensures |a| <= |b|
  {
    if a != {} {
      var e :| e in a;
      Cardinal(a - {e}, b - {e});
    }
  }

  /** Only a crowded second ends its reading. */
  lemma TruthfulEnds(relay: Relay, stored: set<Event>, n: nat, iv: Interval)
    requires Truthful(relay, stored) && WellFormed(iv) && Ends(relay(n, iv), iv)
    ensures Crowded(stored, iv.since)
  {
    assert Honours(relay(n, iv), stored, iv);
    CrowdedMatches(stored, iv, iv.since);
  }

  /** And no complete page covers one. */
  lemma TruthfulCovers(relay: Relay, stored: set<Event>, n: nat, iv: Interval, x: int)
    requires Truthful(relay, stored) && WellFormed(iv) && iv.Has(x) && NextCovered(relay(n, iv), iv) != []
    ensures !Crowded(stored, x)
  {
    assert Honours(relay(n, iv), stored, iv);
    CrowdedMatches(stored, iv, x);
  }

  /** Every query of a trail is for well-formed seconds of the start. */
  lemma TrailWithin(starts: seq<Range>, relay: Relay, asked: seq<Interval>, stacks: seq<seq<Interval>>, i: nat)
    requires Normal(starts) && Trail(relay, StartStack(starts), asked, stacks) && i < |asked|
    ensures WellFormed(asked[i]) && Covers(starts, asked[i].since)
  {
    assert Trail(relay, StartStack(starts), asked[..i], stacks[..i + 1]);
    TrailHolds(starts, relay, asked[..i], stacks[..i + 1], {});
    assert Turns(relay, i, stacks[i], asked[i], stacks[i + 1]);
    assert Partition(starts, stacks[i], CoveredBy(relay, asked[..i]));
    var top := |stacks[i]| - 1;
    assert WellFormed(stacks[i][top]) && SameStart(starts, stacks[i][top].since, stacks[i][top].until);
  }

  lemma {:induction false} CoveredByQuery(relay: Relay, asked: seq<Interval>, x: int) returns (i: nat)
    requires Covers(CoveredBy(relay, asked), x)
    ensures i < |asked| && asked[i].Has(x) && NextCovered(relay(i, asked[i]), asked[i]) != []
  {
    var n := |asked| - 1;
    CoversConcat(CoveredBy(relay, asked[..n]), NextCovered(relay(n, asked[n]), asked[n]), x);
    if Covers(NextCovered(relay(n, asked[n]), asked[n]), x) {
      i := n;
    } else {
      i := CoveredByQuery(relay, asked[..n], x);
      assert asked[..n][i] == asked[i];
    }
  }

  /** A truthful relay is read to the end exactly when none of the seconds is crowded. */
  lemma TruthfulReads(starts: seq<Range>, relay: Relay, asked: seq<Interval>, stacks: seq<seq<Interval>>,
      stored: set<Event>)
    requires Normal(starts) && Trail(relay, StartStack(starts), asked, stacks) && Truthful(relay, stored)
    requires Over(relay, asked) || stacks[|asked|] == []
    ensures Over(relay, asked) <==> exists x :: Covers(starts, x) && Crowded(stored, x)
  {
    if Over(relay, asked) {
      var n := |asked| - 1;
      TrailWithin(starts, relay, asked, stacks, n);
      TruthfulEnds(relay, stored, n, asked[n]);
    } else {
      TrailHolds(starts, relay, asked, stacks, stored);
      forall x | Covers(starts, x) ensures !Crowded(stored, x) {
        assert Covers(CoveredBy(relay, asked), x);
        var i := CoveredByQuery(relay, asked, x);
        TrailWithin(starts, relay, asked, stacks, i);
        TruthfulCovers(relay, stored, i, asked[i], x);
      }
    }
  }

  /** What reading one relay reports: covered and pending seconds, both in normal form. */
  datatype Report = Report(covered: seq<Range>, pending: seq<Range>, eose: bool, queries: nat)

  /** Reads one relay from the given starting intervals. Whatever the relay answers,
      covered and pending seconds partition the starting intervals and the number of
      queries is bounded; what was processed depends on the relay as stated. The reading
      ends early exactly when one of its answers made it. */
  method ReadRelay(starts: seq<Range>, relay: Relay, ghost stored: set<Event>)
    returns (report: Report, processed: seq<Event>, ghost asked: seq<Interval>, ghost stacks: seq<seq<Interval>>)
    requires Normal(starts)
    ensures Trail(relay, StartStack(starts), asked, stacks) && processed == ProcessedBy(relay, asked)
    ensures forall x :: Covers(report.pending, x) <==> OnStack(stacks[|asked|], x)
    ensures Normal(report.covered) && Normal(report.pending)
    ensures forall x :: Covers(starts, x) <==> Covers(report.covered, x) || Covers(report.pending, x)
    ensures forall x :: Covers(report.covered, x) ==> !Covers(report.pending, x)
    ensures report.eose <==> report.pending == []
    ensures |asked| == report.queries && (report.eose <==> Unhindered(relay, asked))
    ensures Truthful(relay, stored) ==> (report.eose <==> forall x :: Covers(starts, x) ==> !Crowded(stored, x))
    ensures Truthful(relay, stored) && report.eose ==>
      forall e: Event :: multiset(processed)[e] == if e in stored && Covers(starts, e.createdAt) then 1 else 0
    ensures report.queries <= 6 * Seconds(starts) - |starts|
    ensures Filters(relay) ==>
      EventOrder(starts, processed) && forall e :: e in processed ==> Covers(starts, e.createdAt)
    ensures Filters(relay) && AnswersFully(relay, stored) ==>
      forall e: Event :: Covers(report.covered, e.createdAt) ==>
        multiset(processed)[e] == if e in stored then 1 else 0
  {
    var intervals, covered, failed, queries;
    intervals, covered, processed, failed, queries, asked, stacks := ReadPages(starts, relay);
    OverExactly(relay, StartStack(starts), asked, stacks);
    TrailHolds(starts, relay, asked, stacks, stored);
    if Truthful(relay, stored) {
      TruthfulKeeps(relay, stored);
      TruthfulReads(starts, relay, asked, stacks, stored);
    }
    var pending := PendingRanges(intervals);
    var mergedCovered := MergeRanges(covered);
    var mergedPending := MergeRanges(pending);
    if intervals != [] {
      assert intervals[0].Has(intervals[0].since) && OnStack(intervals, intervals[0].since);
    }
    if mergedPending != [] { assert Covers(mergedPending, mergedPending[0].start); }
    report := Report(mergedCovered, mergedPending, !failed, queries);
  }

  /** The loop of readHistory for one relay: page after page until nothing is pending or an
      answer ends it. */
  method ReadPages(starts: seq<Range>, relay: Relay)
    returns (intervals: seq<Interval>, covered: seq<Range>, processed: seq<Event>, failed: bool, queries: nat,
             ghost asked: seq<Interval>, ghost stacks: seq<seq<Interval>>)
    requires Normal(starts)
    ensures Trail(relay, StartStack(starts), asked, stacks) && stacks[|asked|] == intervals && |asked| == queries
    ensures covered == CoveredBy(relay, asked) && processed == ProcessedBy(relay, asked) && failed == Over(relay, asked)
    ensures failed <==> intervals != []
  {
    intervals, covered, failed, queries := StartStack(starts), [], false, 0;
    processed, asked, stacks := [], [], [intervals];
    ghost var budget := 6 * Seconds(starts) - |starts|;
    while intervals != [] && !failed
      invariant Trail(relay, StartStack(starts), asked, stacks) && stacks[|asked|] == intervals && |asked| == queries
      invariant covered == CoveredBy(relay, asked)
      invariant processed == ProcessedBy(relay, asked) && failed == Over(relay, asked)
      invariant failed ==> intervals != []
      decreases budget - queries, !failed
    {
      var interval := intervals[|intervals| - 1];
      var answer := relay(queries, interval);
      TrailMore(relay, StartStack(starts), asked, stacks, interval);
      ReadMore(relay, asked, interval);
      intervals, covered, processed, failed := ReadPage(intervals, covered, processed, answer);
      asked, stacks := asked + [interval], stacks + [intervals];
      queries := queries + 1;
      TrailBound(starts, relay, asked, stacks);
    }
  }

  /** Queries are bounded whatever the relay answers. */
  lemma TrailBound(starts: seq<Range>, relay: Relay, asked: seq<Interval>, stacks: seq<seq<Interval>>)
    requires Normal(starts) && Trail(relay, StartStack(starts), asked, stacks)
    ensures |asked| <= 6 * Seconds(starts) - |starts|
    ensures Over(relay, asked) ==> stacks[|asked|] != []
  {
    TrailHolds(starts, relay, asked, stacks, {});
  }

  /** Every event of a covered second has been processed as often as it is stored. */
  ghost predicate OnceCovered(stored: set<Event>, covered: seq<Range>, processed: seq<Event>) {
    forall e: Event :: Covers(covered, e.createdAt) ==> multiset(processed)[e] == if e in stored then 1 else 0
  }

  lemma SortedMembers(events: seq<Event>)
    ensures forall e :: e in SortEvents(events) <==> e in events
  {
    forall e ensures e in SortEvents(events) <==> e in events {
      assert e in SortEvents(events) <==> e in multiset(SortEvents(events));
      assert e in events <==> e in multiset(events);
    }
  }

  /** What has been processed so far, as far as the relay keeps its promises. */
  ghost predicate Reading(starts: seq<Range>, intervals: seq<Interval>, covered: seq<Range>,
                          processed: seq<Event>, failed: bool, relay: Relay, stored: set<Event>) {
    && (!failed ==> StackOrder(starts, intervals))
    && (Filters(relay) ==>
          && EventOrder(starts, processed)
          && (forall e :: e in processed ==> Covers(starts, e.createdAt))
          && (!failed ==> OlderThanStack(starts, intervals, processed))
          && (AnswersFully(relay, stored) ==>
                if failed then OnceCovered(stored, covered, processed) else Once(stored, covered, processed)))
  }

  /** What every turn keeps: the seconds are partitioned, and the events are as they should. */
  ghost predicate Consistent(starts: seq<Range>, intervals: seq<Interval>, covered: seq<Range>,
                             processed: seq<Event>, failed: bool, relay: Relay, stored: set<Event>) {
    && Partition(starts, intervals, covered) && StackCost(intervals) >= 0
    && Reading(starts, intervals, covered, processed, failed, relay, stored)
  }

  /** Splitting a full page's interval. */
  lemma SplitPage(starts: seq<Range>, rest: seq<Interval>, iv: Interval, middle: int, covered: seq<Range>,
                  processed: seq<Event>, relay: Relay, stored: set<Event>)
    requires Normal(starts) && iv.since <= middle < iv.until
    requires Consistent(starts, rest + [iv], covered, processed, false, relay, stored)
    ensures var next := rest + [Interval(middle + 1, iv.until, PAGE_SIZE), Interval(iv.since, middle, PAGE_SIZE)];
      Consistent(starts, next, covered, processed, false, relay, stored) && StackCost(next) < StackCost(rest + [iv])
  {
    var next := rest + [Interval(middle + 1, iv.until, PAGE_SIZE), Interval(iv.since, middle, PAGE_SIZE)];
    assert (rest + [iv])[|rest|] == iv;
    BisectPartition(starts, rest, iv, middle, covered);
    BisectOrder(starts, rest, iv, middle);
    if Filters(relay) { BisectOlder(starts, rest, iv, middle, processed); }
    StackCostAtLeast(next);
  }

  /** Asking a full second again. */
  lemma DoublePage(starts: seq<Range>, rest: seq<Interval>, iv: Interval, covered: seq<Range>,
                   processed: seq<Event>, relay: Relay, stored: set<Event>)
    requires Normal(starts) && iv.since == iv.until && iv.limit < MAX_PAGE_SIZE
    requires Consistent(starts, rest + [iv], covered, processed, false, relay, stored)
    ensures var next := rest + [iv.(limit := iv.limit * 2)];
      Consistent(starts, next, covered, processed, false, relay, stored) && StackCost(next) < StackCost(rest + [iv])
  {
    Double(starts, rest, iv, covered);
    DoubleOlder(starts, rest, iv, iv.limit * 2, processed);
    StackCostAtLeast(rest + [iv.(limit := iv.limit * 2)]);
  }

  /** The events of a page lie in the popped interval, in order. */
  lemma PageEvents(starts: seq<Range>, iv: Interval, answer: Answer, relay: Relay, n: nat)
    requires answer.Page? && answer == relay(n, iv) && Filters(relay)
    requires SameStart(starts, iv.since, iv.until)
    ensures forall e :: e in SortEvents(answer.result) ==> iv.Has(e.createdAt) && Covers(starts, e.createdAt)
  {
    forall e | e in SortEvents(answer.result) ensures iv.Has(e.createdAt) && Covers(starts, e.createdAt) {
      SortedMembers(answer.result);
      SameStartBetween(starts, iv.since, e.createdAt, iv.until);
    }
  }

  lemma FailedPage(starts: seq<Range>, rest: seq<Interval>, iv: Interval, covered: seq<Range>,
                   processed: seq<Event>, answer: Answer, relay: Relay, n: nat, stored: set<Event>)
    requires Normal(starts) && Consistent(starts, rest + [iv], covered, processed, false, relay, stored)
    requires answer.Page? && answer == relay(n, iv)
    ensures Consistent(starts, rest + [iv], covered, processed + SortEvents(answer.result), true, relay, stored)
  {
    var page := SortEvents(answer.result);
    assert (rest + [iv])[|rest|] == iv;
    if Filters(relay) {
      PageEvents(starts, iv, answer, relay, n);
      ProcessOrder(starts, rest, iv, processed, page);
      Cover(starts, rest, iv, covered);
      forall e: Event | Covers(covered, e.createdAt) ensures multiset(page)[e] == 0 {
        assert e !in page;
      }
    }
  }

  lemma CompletePage(starts: seq<Range>, rest: seq<Interval>, iv: Interval, covered: seq<Range>,
                     processed: seq<Event>, answer: Answer, relay: Relay, n: nat, stored: set<Event>)
    requires Normal(starts) && Consistent(starts, rest + [iv], covered, processed, false, relay, stored)
    requires answer.Page? && answer == relay(n, iv)
    requires !answer.hasErrors && answer.status.Eose? && |answer.result| < iv.limit
    ensures Consistent(starts, rest, covered + [Range(iv.since, iv.until)], processed + SortEvents(answer.result),
      false, relay, stored)
    ensures StackCost(rest) < StackCost(rest + [iv])
  {
    StackCostAtLeast(rest);
    var page := SortEvents(answer.result);
    assert (rest + [iv])[|rest|] == iv;
    Cover(starts, rest, iv, covered);
    if Filters(relay) {
      PageEvents(starts, iv, answer, relay, n);
      ProcessOrder(starts, rest, iv, processed, page);
      if AnswersFully(relay, stored) {
        CoverOnce(stored, covered, iv, processed, page);
      }
    }
  }

  function PendingRanges(intervals: seq<Interval>): (r: seq<Range>)
    ensures forall x :: Covers(r, x) <==> OnStack(intervals, x)
  {
    var r := seq(|intervals|, i requires 0 <= i < |intervals| => Range(intervals[i].since, intervals[i].until));
    assert forall x :: Covers(r, x) <==> OnStack(intervals, x) by {
      forall x ensures Covers(r, x) <==> OnStack(intervals, x) {
        if Covers(r, x) {
          var i :| 0 <= i < |r| && r[i].start <= x <= r[i].end;
          assert intervals[i].Has(x);
        }
        if OnStack(intervals, x) {
          var i :| 0 <= i < |intervals| && intervals[i].Has(x);
          assert r[i].start <= x <= r[i].end;
        }
      }
    }
    r
  }

  /** The seconds a read is for: the requested ones that an earlier read left pending, if
      there was one. */
  ghost predicate Requested(since: int, until: int, resume: Option<seq<Range>>, x: int) {
    since <= x <= until && (resume.Some? ==> Covers(resume.value, x))
  }

  /** readHistory for one relay: an end of stored events means every requested second was
      read, within 6W - 1 queries for W seconds. */
  method ReadHistory(since: int, until: int, resume: Option<seq<Range>>, relay: Relay, ghost stored: set<Event>)
    returns (report: Option<Report>, processed: seq<Event>, ghost starts: seq<Range>, ghost asked: seq<Interval>,
             ghost stacks: seq<seq<Interval>>)
    ensures report.None? <==> since < 0 || until < since
    ensures report.Some? ==> Normal(starts) && forall x :: Covers(starts, x) <==> Requested(since, until, resume, x)
    ensures report.Some? ==> Trail(relay, StartStack(starts), asked, stacks) && |asked| == report.value.queries
    ensures report.Some? ==> forall x :: Covers(report.value.pending, x) <==> OnStack(stacks[|asked|], x)
    ensures report.Some? ==> (report.value.eose <==> Unhindered(relay, asked))
    ensures report.Some? && Truthful(relay, stored) ==>
      (report.value.eose <==> forall x :: Requested(since, until, resume, x) ==> !Crowded(stored, x))
    ensures report.Some? && Truthful(relay, stored) && report.value.eose ==> forall e: Event ::
      multiset(processed)[e] == if e in stored && Requested(since, until, resume, e.createdAt) then 1 else 0
    ensures report.Some? && report.value.eose ==>
      forall x :: Covers(report.value.covered, x) <==> Requested(since, until, resume, x)
    ensures report.Some? ==> report.value.queries <= 6 * (until - since + 1) - 1
    ensures report.Some? && Filters(relay) ==> EventOrder(starts, processed)
    ensures report.Some? && resume.None? && Filters(relay) ==> InOrder(processed)
    ensures report.Some? && Filters(relay) && AnswersFully(relay, stored) ==>
      forall e: Event :: Covers(report.value.covered, e.createdAt) ==>
        multiset(processed)[e] == if e in stored then 1 else 0
  {
    if since < 0 || until < since { return None, [], [], [], []; }
    var from := ResumeIntervals(resume, since, until);
    starts := from;
    var r;
    r, processed, asked, stacks := ReadRelay(from, relay, stored);
    forall i | 0 <= i < |starts| ensures since <= starts[i].start && starts[i].end <= until {
      assert Covers(starts, starts[i].start) && Covers(starts, starts[i].end);
    }
    SecondsBound(starts, since, until);
    if resume.None? && Filters(relay) { OneStartInOrder(starts, since, until, processed); }
    report := Some(r);
  }

  /** With a single starting interval all events are in one order. */
  lemma OneStartInOrder(starts: seq<Range>, since: int, until: int, processed: seq<Event>)
    requires Normal(starts) && since <= until && forall x :: Covers(starts, x) <==> since <= x <= until
    requires EventOrder(starts, processed) && forall e :: e in processed ==> Covers(starts, e.createdAt)
    ensures InOrder(processed)
  {
    forall x ensures Covers([Range(since, until)], x) <==> Covers(starts, x) { CoversOne(Range(since, until), x); }
    NormalUnique(starts, [Range(since, until)]);
    forall i, j | 0 <= i < j < |processed| ensures EventBefore(processed[i], processed[j]) {
      assert processed[i] in processed && processed[j] in processed;
      assert starts[0].start <= processed[i].createdAt <= starts[0].end;
      assert SameStart(starts, processed[i].createdAt, processed[j].createdAt);
    }
  }
}
