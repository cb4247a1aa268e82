/** The rounds that recover a channel: every missing range gets a visit, which reads what it
    can from the relays and asks the seeders for the rest; a range is given up only when it is
    too old or accounted for second by second. */
module RecoveryRounds {
  import opened Positions
  import opened Ranges
  import opened Recovery
  import Totals

  datatype Thrown = Nothing | BeforeRecord(final: bool) | WhileFetching(final: bool) | WhileAsking(final: bool)

  /** The world during the visit of one range. */
  datatype Visit = Visit(
    relays: set<int>, fetch: Plan -> Fetch, thrown: Thrown, changed: bool,
    online: bool, seeders: seq<int>, ask: (int, Range) -> bool)

  datatype Outcome = Expired | Kept | Completed

  /** What a round did to the record of its range, and what seeders were asked for in the end. */
  datatype Turn = Turn(before: Option<Known>, after: Option<Known>, asked: seq<Range>)

  /** The records of a channel at one moment. */
  type Records = map<Range, Known>

  function StateOf(states: Records, range: Range): Option<Known> {
    if range in states then Some(states[range]) else None
  }

  function WithState(states: Records, range: Range, s: Option<Known>): Records {
    if s.Some? then states[range := s.value] else states
  }

  function OrBlank(s: Option<Known>): Known { if s.Some? then s.value else BLANK }

  /** The handler of a round that threw: a permanent error ends every relay of the range. */
  function Failed(s: Known, final: bool): Known { if final then GivenUp(s) else s }

  ghost predicate AllAnswered(visit: Visit, asked: seq<Range>) {
    forall q :: q in asked ==> AllAsked(visit.seeders, q, visit.ask)
  }

  /** A range is completed when nobody interfered, no relay is live, the connection holds
      and every seeder was asked for every second that is missing. */
  ghost predicate Ends(range: Range, visit: Visit, s: Known, completed: bool, asked: seq<Range>) {
    if visit.changed || SomeLive(s.relays) || !visit.online then !completed
    else Missing(range, s, asked) && (completed <==> AllAnswered(visit, asked))
  }

  /** One visit: the record is made or found, follows the channel's relays, passes over the
      live ones, and is finalized when none is left; an error cuts this short. */
  ghost predicate Visited(range: Range, visit: Visit, turn: Turn, completed: bool) {
    if visit.thrown.BeforeRecord? then
      && !completed
      && turn.after == if turn.before.None? then None else Some(Failed(turn.before.value, visit.thrown.final))
    else Entered(range, visit, Reconciled(range, OrBlank(turn.before), visit.relays), turn, completed)
  }

  /** What follows once the record is `entered`. */
  ghost predicate Entered(range: Range, visit: Visit, entered: Known, turn: Turn, completed: bool) {
    if visit.thrown.WhileFetching? then !completed && turn.after == Some(Failed(entered, visit.thrown.final))
    else Finished(range, visit, entered, turn, completed)
  }

  /** The pass and what follows it, from the record `entered`. */
  ghost predicate Finished(range: Range, visit: Visit, entered: Known, turn: Turn, completed: bool) {
    exists s :: PassedBy(range, entered, visit.fetch, s) && Concluded(range, visit, s, turn, completed)
  }

  ghost predicate Concluded(range: Range, visit: Visit, s: Known, turn: Turn, completed: bool) {
    if visit.thrown.WhileAsking? then
      !completed && turn.after == Some(if visit.changed || SomeLive(s.relays) then s else Failed(s, visit.thrown.final))
    else
      turn.after == Some(s) && Ends(range, visit, s, completed, turn.asked)
  }

  /** The fate of one range of the snapshot: too old, left alone while offline, or visited. */
  ghost predicate Decided(range: Range, minStart: int, online: bool, visit: Visit, outcome: Outcome, turn: Turn) {
    && (outcome.Expired? <==> range.end < minStart)
    && (turn.after.Some? ==> Sound(range, turn.after.value))
    && if range.end < minStart || !online then turn.after == turn.before && !outcome.Completed?
       else Visited(range, visit, turn, outcome.Completed?)
  }

  // ------------------------------------------------- what completing a range means

  ghost predicate Accounted(range: Range, visit: Visit, s: Known, asked: seq<Range>) {
    && visit.online && visit.thrown == Nothing && !visit.changed && !SomeLive(s.relays)
    && (forall x :: Contains(range, x) ==> Covers(s.read, x) || Covers(s.claimed, x) || Covers(asked, x))
    && AllAnswered(visit, asked)
  }

  /** A completed range is accounted for second by second: read by a relay, claimed from
      the seeders before, or asked of every seeder there is. */
  lemma CompletedIsAccounted(range: Range, minStart: int, online: bool, visit: Visit, outcome: Outcome, turn: Turn)
    requires Decided(range, minStart, online, visit, outcome, turn) && outcome.Completed?
    ensures turn.after.Some? && Accounted(range, visit, turn.after.value, turn.asked)
  {
    var s := turn.after.value;
    forall x | Contains(range, x) ensures Covers(s.read, x) || Covers(s.claimed, x) || Covers(turn.asked, x) {
      assert Covers(s.covered, x) || Covers(turn.asked, x);
    }
  }

  /** What a visit that nobody cut short adds to what has been read is what its fetch
      reported, and nothing is claimed. */
  lemma ReadIsReported(range: Range, visit: Visit, turn: Turn, completed: bool)
    requires Visited(range, visit, turn, completed) && visit.thrown == Nothing
    ensures turn.after.Some? && turn.after.value.claimed == OrBlank(turn.before).claimed
    ensures var s, t := Reconciled(range, OrBlank(turn.before), visit.relays), turn.after.value;
      t.read == s.read + if !SomeLive(s.relays) then []
        else match visit.fetch(PlanOf(s.relays)) {
          case Reports(entries, seen) => AllCovered(entries)
          case Entire(seen) => [range]
        }
  {
    var s := Reconciled(range, OrBlank(turn.before), visit.relays);
    assert s.read + [] == s.read;
    assert PassedBy(range, s, visit.fetch, turn.after.value);
  }

  /** A relay read the second, it was claimed, or some seeder really was asked for it. */
  ghost predicate Attended(range: Range, visit: Visit, s: Known, asked: seq<Range>, x: int) {
    || Covers(s.read, x) || Covers(s.claimed, x)
    || exists i, q :: 0 <= i < |visit.seeders| && q in asked && Contains(q, x) && visit.ask(visit.seeders[i], q)
  }

  /** A completed range holds a second nobody attended to exactly when there was no seeder
      and some second had neither been read nor claimed. */
  lemma UnattendedExactly(range: Range, visit: Visit, s: Known, asked: seq<Range>)
    requires Sound(range, s) && visit.online && !visit.changed && !SomeLive(s.relays)
    requires Ends(range, visit, s, true, asked)
    ensures (exists x :: Contains(range, x) && !Attended(range, visit, s, asked, x))
       <==> visit.seeders == [] && exists x :: Contains(range, x) && !Covers(s.covered, x)
  {
    forall x | Contains(range, x)
      ensures Attended(range, visit, s, asked, x) <==> visit.seeders != [] || Covers(s.covered, x)
    {
      if visit.seeders != [] && !Covers(s.covered, x) {
        assert Covers(asked, x);
        var k :| 0 <= k < |asked| && asked[k].start <= x <= asked[k].end;
        var q := asked[k];
        assert q in asked && AllAsked(visit.seeders, q, visit.ask);
        assert visit.ask(visit.seeders[0], q) && Contains(q, x);
      } else if visit.seeders != [] {
        assert Covers(s.read, x) || Covers(s.claimed, x);
      }
    }
  }

  /** A concrete one: no relay, no seeder, and the range counts as recovered unread. */
  lemma CompletedUnread(fetch: Plan -> Fetch, ask: (int, Range) -> bool) returns (visit: Visit, turn: Turn)
    ensures visit == Visit({}, fetch, Nothing, false, true, [], ask)
    ensures Decided(Range(5, 5), 0, true, visit, Completed, turn) && turn.before.None? && turn.after.Some?
    ensures Contains(Range(5, 5), 5) && !Attended(Range(5, 5), visit, turn.after.value, turn.asked, 5)
  {
    var range := Range(5, 5);
    visit := Visit({}, fetch, Nothing, false, true, [], ask);
    turn := Turn(None, Some(BLANK), [range]);
    assert Reconciled(range, BLANK, {}) == BLANK;
    forall x ensures Covers([range], x) <==> x == 5 { CoversOne(range, x); }
    assert PassedBy(range, BLANK, fetch, BLANK) && Concluded(range, visit, BLANK, turn, true);
  }

  // ------------------------------------------------------------- the priority lane

  /** Where an error or a pause cut the lane short in its turn for one range. */
  datatype Cut = Never | AtOnce | AfterFetch | WhileAsking

  /** The world during that turn. */
  datatype Chance = Chance(
    winner: Option<int>, fetch: Plan -> Fetch, cut: Cut, online: bool, seeders: seq<int>, ask: (int, Range) -> bool)

  /** What the turn did: which open seconds it found and read from whom, the record after
      that, and the intervals that all active seeders were asked for. */
  datatype Pull = Pull(wanted: seq<Range>, read: seq<Range>, left: Known, claims: seq<Range>)

  /** One turn: the record is made or found, follows the channel's relays and takes in the
      answer of the relay that won; what then stays open is asked of the active seeders, and
      what all of them were asked for counts as claimed for every record of the channel. */
  ghost predicate Pulled(range: Range, priorities: seq<Range>, relays: set<int>, chance: Chance, states: Records,
      pull: Pull, next: Records) {
    if chance.cut.AtOnce? then next == states && pull.claims == []
    else
      var s := Reconciled(range, OrBlank(StateOf(states, range)), relays);
      && Wanted(range, s.covered, priorities, pull.wanted)
      && PrioritizedBy(range, s, pull.left, pull.wanted, chance.winner, pull.read, chance.fetch)
      && Requested(range, priorities, chance, pull.left, pull.claims)
      && SharedOut(states[range := pull.left], pull.claims, next)
  }

  /** What is claimed: the parts of what stays open that all active seeders were asked for. */
  ghost predicate Requested(range: Range, priorities: seq<Range>, chance: Chance, left: Known, claims: seq<Range>) {
    if !chance.cut.Never? || !chance.online then claims == []
    else exists open ::
      && Wanted(range, left.covered, priorities, open)
      && forall q :: q in claims <==> chance.seeders != [] && q in open && AllAsked(chance.seeders, q, chance.ask)
  }

  ghost predicate SharedOut(states: Records, claims: seq<Range>, next: Records) {
    next.Keys == states.Keys && forall k :: k in states ==> ClaimedHere(k, states[k], next[k], claims)
  }

  /** The part of the claims that lies in a range is claimed for its record. */
  ghost predicate ClaimedHere(range: Range, s: Known, t: Known, claims: seq<Range>) {
    exists applied :: Meet(applied, claims, [range]) && ClaimedBy(range, s, t, applied)
  }

  /** The lane over the ranges of a channel: its turns, and the records before, between and
      after them. */
  datatype Lane = Lane(pulls: seq<Pull>, states: seq<Records>)

  ghost predicate Went(ranges: seq<Range>, priorities: seq<Range>, relays: set<int>, chances: seq<Chance>, lane: Lane,
      start: Records, end: Records) {
    && |lane.pulls| <= |ranges| == |chances| && |lane.states| == |lane.pulls| + 1
    && lane.states[0] == start && lane.states[|lane.pulls|] == end
    && forall i :: 0 <= i < |lane.pulls| ==>
         Pulled(ranges[i], priorities, relays, chances[i], lane.states[i], lane.pulls[i], lane.states[i + 1])
  }

  /** The lane stops early only where it was cut, or when there is nothing to prioritize. */
  predicate Stopped(ranges: seq<Range>, priorities: seq<Range>, chances: seq<Chance>, lane: Lane)
    requires |lane.pulls| <= |ranges| == |chances|
  {
    |lane.pulls| == |ranges| || priorities == []
    || (lane.pulls != [] && !chances[|lane.pulls| - 1].cut.Never?)
  }

  /** A turn of the lane asked every active seeder for the second, or a relay without
      partial results answered for it. */
  ghost predicate Pursued(range: Range, x: int, at: Range, chance: Chance, pull: Pull) {
    || (range == at && Covers(pull.wanted, x) && chance.winner.Some?
        && chance.fetch(map[chance.winner.value := pull.read]).Entire?)
    || (chance.seeders != []
        && exists q :: q in pull.claims && Contains(q, x) && AllAsked(chance.seeders, q, chance.ask))
  }

  ghost predicate ClaimedIn(states: Records, range: Range, x: int) {
    range in states && Covers(states[range].claimed, x)
  }

  /** What sharing out claims adds to a record: the claimed seconds of its range. */
  lemma SharedClaims(states: Records, claims: seq<Range>, next: Records, range: Range, x: int)
    requires SharedOut(states, claims, next)
    ensures ClaimedIn(next, range, x)
       <==> ClaimedIn(states, range, x) || (range in states && Contains(range, x) && Covers(claims, x))
  {
    if range in states {
      CoversOne(range, x);
      var applied :| Meet(applied, claims, [range]) && ClaimedBy(range, states[range], next[range], applied);
    }
  }

  /** The fetch of a turn claims only what the turn wanted, and only when it was answered
      without partial results. */
  lemma FetchClaims(range: Range, priorities: seq<Range>, relays: set<int>, chance: Chance, states: Records,
      pull: Pull, next: Records, x: int)
    requires Pulled(range, priorities, relays, chance, states, pull, next) && !chance.cut.AtOnce?
    requires Covers(pull.left.claimed, x)
    ensures ClaimedIn(states, range, x) || Pursued(range, x, range, chance, pull)
  {
    var s := Reconciled(range, OrBlank(StateOf(states, range)), relays);
    assert s.claimed == OrBlank(StateOf(states, range)).claimed;
    if !Covers(s.claimed, x) {
      assert chance.fetch(map[chance.winner.value := pull.read]).Entire?;
    }
  }

  lemma PulledClaims(range: Range, priorities: seq<Range>, relays: set<int>, chance: Chance, states: Records,
      pull: Pull, next: Records, at: Range, x: int)
    requires Pulled(range, priorities, relays, chance, states, pull, next) && ClaimedIn(next, at, x)
    ensures ClaimedIn(states, at, x) || Pursued(at, x, range, chance, pull)
  {
    if !chance.cut.AtOnce? {
      var mid := states[range := pull.left];
      SharedClaims(mid, pull.claims, next, at, x);
      if ClaimedIn(mid, at, x) {
        if at == range { FetchClaims(range, priorities, relays, chance, states, pull, next, x); }
      } else {
        CoversIn(pull.claims, x);
      }
    }
  }

  /** Every second that the lane leaves claimed was claimed before it, or pursued in one of
      its turns; it makes and changes only records of its own ranges, apart from the claims. */
  lemma {:induction false} LaneClaims(ranges: seq<Range>, priorities: seq<Range>, relays: set<int>,
      chances: seq<Chance>, lane: Lane, start: Records, end: Records, n: nat, at: Range, x: int)
    requires Went(ranges, priorities, relays, chances, lane, start, end) && n <= |lane.pulls|
    requires ClaimedIn(lane.states[n], at, x)
    ensures ClaimedIn(start, at, x)
         || exists i :: 0 <= i < n && Pursued(at, x, ranges[i], chances[i], lane.pulls[i])
  {
    if n > 0 {
      var i := n - 1;
      PulledClaims(ranges[i], priorities, relays, chances[i], lane.states[i], lane.pulls[i], lane.states[n], at, x);
      if ClaimedIn(lane.states[i], at, x) {
        LaneClaims(ranges, priorities, relays, chances, lane, start, end, i, at, x);
      }
    }
  }

  /** Only records of the lane's ranges are made, and no other is changed by more than claims. */
  lemma {:induction false} LaneRecords(ranges: seq<Range>, priorities: seq<Range>, relays: set<int>,
      chances: seq<Chance>, lane: Lane, start: Records, end: Records, n: nat, at: Range)
    requires Went(ranges, priorities, relays, chances, lane, start, end) && n <= |lane.pulls|
    requires at !in ranges
    ensures at in lane.states[n] <==> at in start
    ensures at in start ==> lane.states[n][at].read == start[at].read
  {
    if n > 0 {
      var i := n - 1;
      LaneRecords(ranges, priorities, relays, chances, lane, start, end, i, at);
      assert ranges[i] in ranges;
      PulledElsewhere(ranges[i], priorities, relays, chances[i], lane.states[i], lane.pulls[i], lane.states[n], at);
    }
  }

  lemma PulledElsewhere(range: Range, priorities: seq<Range>, relays: set<int>, chance: Chance, states: Records,
      pull: Pull, next: Records, at: Range)
    requires Pulled(range, priorities, relays, chance, states, pull, next) && at != range
    ensures at in next <==> at in states
    ensures at in states ==> next[at].read == states[at].read
  {
    if !chance.cut.AtOnce? && at in states {
      assert ClaimedHere(at, states[range := pull.left][at], next[at], pull.claims);
    }
  }

  // ----------------------------------------------------------------- the channel

  class Channel {
    var records: map<Range, RangeRecord>
    var offline: seq<Range>
    var recoveredThrough: int
    /** What each record holds. */
    ghost var states: Records

    ghost predicate Valid()
      reads this, records.Values
    {
      && states.Keys == records.Keys
      && (forall k :: k in records ==> Holds(k, records[k], states[k]))
      && AllSound(states)
    }

    constructor (offline: seq<Range>, recoveredThrough: int)
      ensures Valid() && records == map[] && this.offline == offline && this.recoveredThrough == recoveredThrough
    {
      records, this.offline, this.recoveredThrough, states := map[], offline, recoveredThrough, map[];
    }

    /** recoveryRangeRecord: the record of a range, made on first use. */
    method RecordOf(range: Range) returns (record: RangeRecord)
      requires Valid()
      modifies `records, `states
      ensures Valid() && range in records && records[range] == record && fresh(records.Values - old(records.Values))
      ensures states == old(states)[range := OrBlank(StateOf(old(states), range))]
    {
      if range !in records {
        var made := new RangeRecord(range);
        SoundWith(states, range, BLANK);
        records, states := records[range := made], states[range := BLANK];
      }
      record := records[range];
    }

    /** The record is made or found and follows the channel's relays. */
    method Enter(range: Range, relays: set<int>)
      requires Valid()
      modifies `records, `states, records.Values
      ensures Valid() && range in records && fresh(records.Values - old(records.Values))
      ensures states == old(states)[range := Reconciled(range, OrBlank(StateOf(old(states), range)), relays)]
    {
      ghost var s := OrBlank(StateOf(states, range));
      Overwritten(states, range, s, Reconciled(range, s, relays));
      var record := RecordOf(range);
      Follow(range, relays);
    }

    /** The record of a range follows the channel's relays. */
    method Follow(range: Range, relays: set<int>)
      requires Valid() && range in records
      modifies `states, records[range]
      ensures Valid() && range in old(states)
      ensures states == old(states)[range := Reconciled(range, old(states)[range], relays)]
    {
      SoundAt(states, range);
      records[range].Reconcile(relays);
      SoundWith(states, range, records[range].Now());
      states := states[range := records[range].Now()];
    }

    /** The pass of a round over the record of its range. */
    method PassOver(range: Range, fetch: Plan -> Fetch)
      requires Valid() && range in records && HonestFetch(fetch)
      modifies `states, records[range]
      ensures Valid() && range in states && states == old(states)[range := states[range]]
      ensures PassedBy(range, old(states)[range], fetch, states[range])
    {
      SoundAt(states, range);
      records[range].Pass(fetch);
      SoundWith(states, range, records[range].Now());
      states := states[range := records[range].Now()];
    }

    /** Claims are shared out to the record of one range. */
    method ClaimFor(range: Range, claims: seq<Range>)
      requires Valid() && range in records
      modifies `states, records[range]
      ensures Valid() && range in old(states) && states == old(states)[range := states[range]]
      ensures ClaimedHere(range, old(states)[range], states[range], claims)
    {
      var applied := IntersectRanges(claims, [range]);
      ClaimThese(range, applied);
    }

    method ClaimThese(range: Range, ranges: seq<Range>)
      requires Valid() && range in records
      modifies `states, records[range]
      ensures Valid() && range in old(states) && states == old(states)[range := states[range]]
      ensures ClaimedBy(range, old(states)[range], states[range], ranges)
    {
      SoundAt(states, range);
      records[range].Claim(ranges);
      SoundWith(states, range, records[range].Now());
      states := states[range := records[range].Now()];
    }

    /** The end of askPrioritySeeders: every record of the channel gets its part. */
    method ShareOut(claims: seq<Range>)
      requires Valid()
      modifies `states, records.Values
      ensures Valid() && SharedOut(old(states), claims, states)
    {
      ghost var start := states;
      var todo := records.Keys;
      while todo != {}
        invariant Valid() && todo <= records.Keys && Sharing(start, claims, todo, states)
        decreases todo
      {
        var range := Totals.Pick(todo);
        ghost var was := states;
        ClaimFor(range, claims);
        SharingMore(start, claims, todo, was, range, states);
        todo := todo - {range};
      }
    }

    /** The fetch of the lane for one range, and what it leaves open. */
    method Ahead(range: Range, priorities: seq<Range>, winner: Option<int>, fetch: Plan -> Fetch)
      returns (uncovered: seq<Range>, ghost wanted: seq<Range>, ghost asked: seq<Range>)
      requires Valid() && range in records && HonestFetch(fetch)
      modifies `states, records[range]
      ensures Valid() && range in states && states == old(states)[range := states[range]]
      ensures Wanted(range, old(states)[range].covered, priorities, wanted)
      ensures PrioritizedBy(range, old(states)[range], states[range], wanted, winner, asked, fetch)
      ensures Wanted(range, states[range].covered, priorities, uncovered)
    {
      SoundAt(states, range);
      uncovered, wanted, asked := records[range].Prioritize(priorities, winner, fetch);
      SoundWith(states, range, records[range].Now());
      states := states[range := records[range].Now()];
    }

    /** askPrioritySeeders. */
    method AskAhead(range: Range, ghost priorities: seq<Range>, uncovered: seq<Range>, chance: Chance)
      returns (ghost claims: seq<Range>)
      requires Valid() && range in states && Wanted(range, states[range].covered, priorities, uncovered)
      requires chance.cut.Never?
      modifies `states, records.Values
      ensures Valid() && SharedOut(old(states), claims, states)
      ensures Requested(range, priorities, chance, old(states)[range], claims)
    {
      ghost var left := states[range];
      var asked := [];
      if chance.online {
        ghost var merged;
        asked, merged := AskPriority(chance.seeders, uncovered, chance.ask);
        WantedSame(range, left.covered, priorities, uncovered, merged);
      }
      claims := asked;
      ShareOut(asked);
    }

    /** One turn of the lane; `stopped` when it was cut short. */
    method PullAhead(range: Range, priorities: seq<Range>, relays: set<int>, chance: Chance)
      returns (stopped: bool, ghost pull: Pull)
      requires Valid() && HonestFetch(chance.fetch)
      modifies `records, `states, records.Values
      ensures Valid() && fresh(records.Values - old(records.Values))
      ensures Pulled(range, priorities, relays, chance, old(states), pull, states)
      ensures stopped <==> !chance.cut.Never?
    {
      if chance.cut.AtOnce? { return true, Pull([], [], BLANK, []); }
      ghost var start := states;
      Enter(range, relays);
      ghost var entered := states[range];
      pull := PullEntered(range, priorities, chance);
      Overwritten(start, range, entered, pull.left);
      stopped := !chance.cut.Never?;
    }

    /** The turn, once the record follows the channel's relays. */
    method PullEntered(range: Range, priorities: seq<Range>, chance: Chance) returns (ghost pull: Pull)
      requires Valid() && range in records && HonestFetch(chance.fetch) && !chance.cut.AtOnce?
      modifies `states, records.Values
      ensures Valid() && range in old(states)
      ensures Wanted(range, old(states)[range].covered, priorities, pull.wanted)
      ensures PrioritizedBy(range, old(states)[range], pull.left, pull.wanted, chance.winner, pull.read, chance.fetch)
      ensures Requested(range, priorities, chance, pull.left, pull.claims)
      ensures SharedOut(old(states)[range := pull.left], pull.claims, states)
    {
      ghost var wanted, asked;
      var uncovered;
      uncovered, wanted, asked := Ahead(range, priorities, chance.winner, chance.fetch);
      ghost var left, claims := states[range], [];
      if chance.cut.Never? {
        claims := AskAhead(range, priorities, uncovered, chance);
      } else {
        NoClaims(states);
      }
      pull := Pull(wanted, asked, left, claims);
    }

    /** runPriorityLane. */
    method PriorityLane(ranges: seq<Range>, priorities: seq<Range>, relays: set<int>, chances: seq<Chance>)
      returns (ghost lane: Lane)
      requires Valid() && |chances| == |ranges| && forall c :: c in chances ==> HonestFetch(c.fetch)
      modifies `records, `states, records.Values
      ensures Valid() && fresh(records.Values - old(records.Values))
      ensures Went(ranges, priorities, relays, chances, lane, old(states), states)
      ensures Stopped(ranges, priorities, chances, lane)
    {
      lane := Lane([], [states]);
      if priorities == [] { return; }
      for k := 0 to |ranges|
        invariant Valid() && fresh(records.Values - old(records.Values))
        invariant Went(ranges, priorities, relays, chances, lane, old(states), states) && |lane.pulls| == k
      {
        var stopped;
        ghost var pull;
        ghost var was := states;
        stopped, pull := PullAhead(ranges[k], priorities, relays, chances[k]);
        WentMore(ranges, priorities, relays, chances, lane, old(states), was, pull, states);
        lane := Lane(lane.pulls + [pull], lane.states + [states]);
        if stopped { return; }
      }
    }

    /** The handler of a round that threw. */
    method Caught(range: Range, final: bool)
      requires Valid()
      modifies `states, records.Values
      ensures Valid()
      ensures states == if range in old(states)
        then old(states)[range := Failed(old(states)[range], final)] else old(states)
    {
      if final && range in records {
        SoundAt(states, range);
        records[range].GiveUp();
        SoundWith(states, range, records[range].Now());
        states := states[range := records[range].Now()];
      }
    }

    /** The end of a round: an active range waits for its next turn, another is finalized. */
    method Conclude(range: Range, visit: Visit) returns (completed: bool, asked: seq<Range>)
      requires Valid() && range in records && visit.thrown == Nothing
      ensures Ends(range, visit, states[range], completed, asked)
    {
      SoundAt(states, range);
      if visit.changed || records[range].Active() { return false, []; }
      completed, asked := records[range].Finalize(visit.online, visit.seeders, visit.ask);
    }

    /** What the loop of recoverChannelRanges does online for a range that has not expired. */
    method VisitRange(range: Range, visit: Visit) returns (completed: bool, ghost turn: Turn)
      requires Valid() && HonestFetch(visit.fetch)
      modifies `records, `states, records.Values
      ensures Valid() && fresh(records.Values - old(records.Values)) && Follows(old(states), range, turn, states)
      ensures Visited(range, visit, turn, completed)
    {
      if visit.thrown.BeforeRecord? {
        ghost var before := StateOf(states, range);
        Caught(range, visit.thrown.final);
        return false, Turn(before, StateOf(states, range), []);
      }
      completed, turn := VisitRecord(range, visit);
    }

    /** The visit from the record on. */
    method VisitRecord(range: Range, visit: Visit) returns (completed: bool, ghost turn: Turn)
      requires Valid() && HonestFetch(visit.fetch) && !visit.thrown.BeforeRecord?
      modifies `records, `states, records.Values
      ensures Valid() && fresh(records.Values - old(records.Values)) && Follows(old(states), range, turn, states)
      ensures Visited(range, visit, turn, completed)
    {
      ghost var start, rest := states, Turn(None, None, []);
      ghost var entered := Reconciled(range, OrBlank(StateOf(states, range)), visit.relays);
      Enter(range, visit.relays);
      completed, rest := VisitEntered(range, visit);
      Overwritten(start, range, entered, rest.after.value);
      turn := Turn(StateOf(start, range), rest.after, rest.asked);
    }

    method VisitEntered(range: Range, visit: Visit) returns (completed: bool, ghost turn: Turn)
      requires Valid() && range in records && HonestFetch(visit.fetch) && !visit.thrown.BeforeRecord?
      modifies `states, records.Values
      ensures Valid() && turn.after.Some? && states == old(states)[range := turn.after.value]
      ensures Entered(range, visit, old(states)[range], turn, completed)
    {
      if visit.thrown.WhileFetching? {
        Caught(range, visit.thrown.final);
        return false, Turn(None, Some(states[range]), []);
      }
      completed, turn := ReadAndAsk(range, visit);
    }

    /** The rest of the visit, once the record follows the channel's relays. */
    method ReadAndAsk(range: Range, visit: Visit) returns (completed: bool, ghost turn: Turn)
      requires Valid() && range in records && HonestFetch(visit.fetch)
      requires visit.thrown.Nothing? || visit.thrown.WhileAsking?
      modifies `states, records.Values
      ensures Valid() && turn.after.Some? && states == old(states)[range := turn.after.value]
      ensures Finished(range, visit, old(states)[range], turn, completed)
    {
      PassOver(range, visit.fetch);
      ghost var start, passed := old(states), states[range];
      completed, turn := Close(range, visit);
      Overwritten(start, range, passed, turn.after.value);
    }

    /** What follows the pass. */
    method Close(range: Range, visit: Visit) returns (completed: bool, ghost turn: Turn)
      requires Valid() && range in records
      requires visit.thrown.Nothing? || visit.thrown.WhileAsking?
      modifies `states, records.Values
      ensures Valid() && turn.after.Some? && states == old(states)[range := turn.after.value]
      ensures Concluded(range, visit, old(states)[range], turn, completed)
    {
      if visit.thrown.WhileAsking? {
        if !(visit.changed || records[range].Active()) { Caught(range, visit.thrown.final); }
        return false, Turn(None, Some(states[range]), []);
      }
      var asked;
      completed, asked := Conclude(range, visit);
      turn := Turn(None, Some(states[range]), asked);
    }

    /** One round of that loop. */
    method Round(range: Range, minStart: int, online: bool, visit: Visit) returns (outcome: Outcome, ghost turn: Turn)
      requires Valid() && HonestFetch(visit.fetch)
      modifies `records, `states, records.Values
      ensures Valid() && fresh(records.Values - old(records.Values)) && Follows(old(states), range, turn, states)
      ensures Decided(range, minStart, online, visit, outcome, turn)
    {
      outcome, turn := Kept, Turn(StateOf(states, range), StateOf(states, range), []);
      if range in states { SoundAt(states, range); }
      if range.end < minStart { return Expired, turn; }
      if online {
        var completed;
        completed, turn := VisitRange(range, visit);
        if range in states { SoundAt(states, range); }
        if completed { outcome := Completed; }
      }
    }

    /** The loop of recoverChannelRanges over the ranges of one channel. */
    method VisitAll(snapshot: seq<Range>, minStart: int, online: bool, visits: seq<Visit>)
      returns (outcomes: seq<Outcome>, remaining: seq<Range>, through: int, ghost story: Story)
      requires Valid() && |visits| == |snapshot| && forall v :: v in visits ==> HonestFetch(v.fetch)
      modifies `records, `states, records.Values
      ensures Valid() && fresh(records.Values - old(records.Values))
      ensures Told(snapshot, minStart, online, visits, outcomes, story, old(states), states)
      ensures remaining == KeptOf(snapshot, outcomes) && through == Furthest(snapshot, outcomes, recoveredThrough)
    {
      outcomes, remaining, through := [], [], recoveredThrough;
      story := Story([], [states]);
      assert snapshot[..0] == [] && visits[..0] == [];
      for k := 0 to |snapshot|
        invariant Valid() && fresh(records.Values - old(records.Values))
        invariant Told(snapshot[..k], minStart, online, visits[..k], outcomes, story, old(states), states)
        invariant Tallied(snapshot[..k], outcomes, recoveredThrough, remaining, through)
      {
        assert snapshot[..k + 1] == snapshot[..k] + [snapshot[k]] && visits[..k + 1] == visits[..k] + [visits[k]];
        outcomes, remaining, through, story := NextRound(snapshot[k], minStart, online, visits[k],
          snapshot[..k], visits[..k], outcomes, remaining, through, story, old(states));
      }
      assert snapshot[..|snapshot|] == snapshot && visits[..|snapshot|] == visits;
    }

    /** One turn of the loop: after the ranges `done`, the round of the next one. */
    method NextRound(range: Range, minStart: int, online: bool, visit: Visit, ghost done: seq<Range>,
        ghost visits: seq<Visit>,
        outcomes: seq<Outcome>, remaining: seq<Range>, through: int, ghost story: Story, ghost start: Records)
      returns (outcomes': seq<Outcome>, remaining': seq<Range>, through': int, ghost story': Story)
      requires Valid() && HonestFetch(visit.fetch)
      requires Told(done, minStart, online, visits, outcomes, story, start, states)
      requires Tallied(done, outcomes, recoveredThrough, remaining, through)
      modifies `records, `states, records.Values
      ensures Valid() && fresh(records.Values - old(records.Values))
      ensures Told(done + [range], minStart, online, visits + [visit], outcomes', story', start, states)
      ensures Tallied(done + [range], outcomes', recoveredThrough, remaining', through')
    {
      ghost var turn, was := Turn(None, None, []), states;
      var outcome;
      outcome, turn := Round(range, minStart, online, visit);
      Tally(done, outcomes, range, outcome, recoveredThrough, remaining, through);
      ToldMore(done, minStart, online, visits, outcomes, story, start, was, range, visit, outcome, turn, states);
      remaining', through' := remaining, through;
      if outcome.Kept? { remaining' := remaining + [range]; }
      if outcome.Completed? && range.end > through { through' := range.end; }
      outcomes' := outcomes + [outcome];
      story' := Story(story.turns + [turn], story.states + [states]);
    }

    /** pruneRecoveryRanges: the records of the ranges that are still pending stay. */
    method Prune(remaining: seq<Range>)
      requires Valid()
      modifies `records, `states
      ensures Valid() && states == Restricted(old(states), remaining) && records.Values <= old(records.Values)
    {
      records := map k | k in records && k in remaining :: records[k];
      states := Restricted(states, remaining);
    }

    /** recoverChannelRanges for one channel: the priority lane when online, then the rounds.
        `snapshot` is the list of ranges the call started from, `now` the one found when the
        result is written: other code may have added or removed ranges in between. */
    method Recover(snapshot: seq<Range>, minStart: int, online: bool, priorities: seq<Range>, relays: set<int>,
        chances: seq<Chance>, visits: seq<Visit>, now: seq<Range>, nowThrough: int)
      returns (outcomes: seq<Outcome>, ghost lane: Lane, ghost story: Story)
      requires Valid() && |visits| == |chances| == |snapshot|
      requires forall v :: v in visits ==> HonestFetch(v.fetch)
      requires forall c :: c in chances ==> HonestFetch(c.fetch)
      modifies this, records.Values
      ensures Valid() && fresh(records.Values - old(records.Values)) && Normal(offline)
      ensures Ran(snapshot, minStart, online, priorities, relays, chances, visits, outcomes, lane, story, old(states))
      ensures states == Restricted(story.states[|snapshot|], KeptOf(snapshot, outcomes))
      ensures forall x :: Covers(offline, x) <==> Added(snapshot, now, x) || Left(snapshot, outcomes, x)
      ensures recoveredThrough
           == Furthest(snapshot, outcomes,
                if nowThrough > old(recoveredThrough) then nowThrough else old(recoveredThrough))
    {
      lane := Lane([], [states]);
      if online { lane := PriorityLane(snapshot, priorities, relays, chances); }
      outcomes, story := Rounds(snapshot, minStart, online, visits, now, nowThrough);
    }

    /** The rounds, and the writing of their result. */
    method Rounds(snapshot: seq<Range>, minStart: int, online: bool, visits: seq<Visit>, now: seq<Range>,
        nowThrough: int)
      returns (outcomes: seq<Outcome>, ghost story: Story)
      requires Valid() && |visits| == |snapshot| && forall v :: v in visits ==> HonestFetch(v.fetch)
      modifies this, records.Values
      ensures Valid() && fresh(records.Values - old(records.Values)) && Normal(offline)
      ensures |story.states| == |snapshot| + 1
      ensures Told(snapshot, minStart, online, visits, outcomes, story, old(states), story.states[|snapshot|])
      ensures states == Restricted(story.states[|snapshot|], KeptOf(snapshot, outcomes))
      ensures forall x :: Covers(offline, x) <==> Added(snapshot, now, x) || Left(snapshot, outcomes, x)
      ensures recoveredThrough
           == Furthest(snapshot, outcomes,
                if nowThrough > old(recoveredThrough) then nowThrough else old(recoveredThrough))
    {
      var remaining, through;
      outcomes, remaining, through, story := VisitAll(snapshot, minStart, online, visits);
      FurthestFrom(snapshot, outcomes, nowThrough, recoveredThrough);
      offline := Rewritten(snapshot, outcomes, now, remaining);
      recoveredThrough := if nowThrough > through then nowThrough else through;
      Prune(remaining);
    }
  }

  /** A whole call: the lane when online, then the story of the rounds. */
  ghost predicate Ran(snapshot: seq<Range>, minStart: int, online: bool, priorities: seq<Range>, relays: set<int>,
      chances: seq<Chance>, visits: seq<Visit>, outcomes: seq<Outcome>, lane: Lane, story: Story, start: Records) {
    && |story.states| == |snapshot| + 1
    && Told(snapshot, minStart, online, visits, outcomes, story, story.states[0], story.states[|snapshot|])
    && Went(snapshot, priorities, relays, chances, lane, start, story.states[0])
    && if online then Stopped(snapshot, priorities, chances, lane) else lane.pulls == []
  }

  /** Where the sharing out stands: the records in `todo` have not had their part yet. */
  ghost predicate Sharing(states: Records, claims: seq<Range>, todo: set<Range>, now: Records) {
    now.Keys == states.Keys && forall k :: k in states ==>
      if k in todo then now[k] == states[k] else ClaimedHere(k, states[k], now[k], claims)
  }

  lemma SharingMore(states: Records, claims: seq<Range>, todo: set<Range>, was: Records, range: Range, now: Records)
    requires Sharing(states, claims, todo, was) && range in todo && range in was && range in now
    requires now == was[range := now[range]] && ClaimedHere(range, was[range], now[range], claims)
    ensures Sharing(states, claims, todo - {range}, now)
  {
  }

  /** Nothing is claimed when nobody was asked. */
  lemma NoClaims(states: Records)
    ensures SharedOut(states, [], states)
  {
    forall k | k in states ensures ClaimedHere(k, states[k], states[k], []) {
      assert Meet([], [], [k]);
    }
  }

  lemma WantedSame(range: Range, covered: seq<Range>, priorities: seq<Range>, a: seq<Range>, b: seq<Range>)
    requires Wanted(range, covered, priorities, a) && Normal(b) && forall x :: Covers(b, x) <==> Covers(a, x)
    ensures Wanted(range, covered, priorities, b)
  {
  }

  lemma WentMore(ranges: seq<Range>, priorities: seq<Range>, relays: set<int>, chances: seq<Chance>, lane: Lane,
      start: Records, was: Records, pull: Pull, now: Records)
    requires Went(ranges, priorities, relays, chances, lane, start, was) && |lane.pulls| < |ranges|
    requires Pulled(ranges[|lane.pulls|], priorities, relays, chances[|lane.pulls|], was, pull, now)
    ensures Went(ranges, priorities, relays, chances, Lane(lane.pulls + [pull], lane.states + [now]), start, now)
  {
  }

  ghost predicate AllSound(states: Records) {
    forall k :: k in states ==> Sound(k, states[k])
  }

  lemma SoundWith(states: Records, range: Range, s: Known)
    requires AllSound(states) && Sound(range, s)
    ensures AllSound(states[range := s])
  {
  }

  lemma Overwritten(states: Records, range: Range, s: Known, t: Known)
    ensures states[range := s][range := t] == states[range := t] && states[range := s][range] == s
  {
  }

  lemma SoundAt(states: Records, range: Range)
    requires AllSound(states) && range in states
    ensures Sound(range, states[range])
  {
  }

  ghost predicate Holds(range: Range, record: RangeRecord, s: Known)
    reads record
  {
    record.range == range && record.Now() == s
  }

  /** The records of some ranges. */
  function Restricted(states: Records, ranges: seq<Range>): Records {
    map k | k in states && k in ranges :: states[k]
  }

  /** The list written at the end of the rounds. */
  method Rewritten(snapshot: seq<Range>, ghost outcomes: seq<Outcome>, now: seq<Range>, remaining: seq<Range>)
    returns (written: seq<Range>)
    requires |outcomes| == |snapshot| && remaining == KeptOf(snapshot, outcomes)
    ensures Normal(written)
    ensures forall x :: Covers(written, x) <==> Added(snapshot, now, x) || Left(snapshot, outcomes, x)
  {
    Written(snapshot, outcomes, now);
    written := MergeRanges(Concurrent(snapshot, now) + remaining);
  }

  /** The turns of the rounds, and the records before, between and after them. */
  datatype Story = Story(turns: seq<Turn>, states: seq<Records>)

  /** The story of a run of rounds that led from `start` to `end`: each round decides its
      range from the record as the round found it, and changes no other record. */
  ghost predicate Told(snapshot: seq<Range>, minStart: int, online: bool, visits: seq<Visit>, outcomes: seq<Outcome>,
      story: Story, start: Records, end: Records) {
    && |outcomes| == |visits| == |story.turns| == |snapshot| && |story.states| == |snapshot| + 1
    && story.states[0] == start && story.states[|snapshot|] == end
    && (forall i :: 0 <= i < |snapshot| ==>
          Decided(snapshot[i], minStart, online, visits[i], outcomes[i], story.turns[i]))
    && (forall i :: 0 <= i < |snapshot| ==> Follows(story.states[i], snapshot[i], story.turns[i], story.states[i + 1]))
  }

  ghost predicate Follows(states: Records, range: Range, turn: Turn, next: Records) {
    turn.before == StateOf(states, range) && next == WithState(states, range, turn.after)
  }

  lemma ToldMore(snapshot: seq<Range>, minStart: int, online: bool, visits: seq<Visit>, outcomes: seq<Outcome>,
      story: Story, start: Records, was: Records, range: Range, visit: Visit, outcome: Outcome, turn: Turn,
      end: Records)
    requires Told(snapshot, minStart, online, visits, outcomes, story, start, was)
    requires Decided(range, minStart, online, visit, outcome, turn) && Follows(was, range, turn, end)
    ensures Told(snapshot + [range], minStart, online, visits + [visit], outcomes + [outcome],
      Story(story.turns + [turn], story.states + [end]), start, end)
  {
  }

  function KeptOf(snapshot: seq<Range>, outcomes: seq<Outcome>): seq<Range>
    requires |snapshot| == |outcomes|
  {
    if snapshot == [] then []
    else
      var n := |snapshot| - 1;
      KeptOf(snapshot[..n], outcomes[..n]) + if outcomes[n].Kept? then [snapshot[n]] else []
  }

  /** The ranges that appeared while the round was running, told apart by their exact ends. */
  function Concurrent(snapshot: seq<Range>, now: seq<Range>): (rs: seq<Range>)
    ensures forall q :: q in rs <==> q in now && q !in snapshot
  {
    if now == [] then []
    else (if now[0] in snapshot then [] else [now[0]]) + Concurrent(snapshot, now[1..])
  }

  ghost predicate Added(snapshot: seq<Range>, now: seq<Range>, x: int) {
    exists q :: q in now && q !in snapshot && Contains(q, x)
  }

  ghost predicate Left(snapshot: seq<Range>, outcomes: seq<Outcome>, x: int)
    requires |snapshot| == |outcomes|
  {
    exists i :: 0 <= i < |snapshot| && outcomes[i].Kept? && Contains(snapshot[i], x)
  }

  function Furthest(snapshot: seq<Range>, outcomes: seq<Outcome>, from: int): int
    requires |snapshot| == |outcomes|
  {
    if snapshot == [] then from
    else
      var n := |snapshot| - 1;
      var before := Furthest(snapshot[..n], outcomes[..n], from);
      if outcomes[n].Completed? && snapshot[n].end > before then snapshot[n].end else before
  }

  /** What the rounds so far have left pending, and how far they have recovered. */
  predicate Tallied(snapshot: seq<Range>, outcomes: seq<Outcome>, from: int, remaining: seq<Range>, through: int) {
    |snapshot| == |outcomes| && remaining == KeptOf(snapshot, outcomes) && through == Furthest(snapshot, outcomes, from)
  }

  lemma Tally(snapshot: seq<Range>, outcomes: seq<Outcome>, range: Range, outcome: Outcome, from: int,
      remaining: seq<Range>, through: int)
    requires Tallied(snapshot, outcomes, from, remaining, through)
    ensures Tallied(snapshot + [range], outcomes + [outcome], from,
      if outcome.Kept? then remaining + [range] else remaining,
      if outcome.Completed? && range.end > through then range.end else through)
  {
    assert remaining + [] == remaining;
    var n := |snapshot|;
    assert (snapshot + [range])[..n] == snapshot && (outcomes + [outcome])[..n] == outcomes;
  }

  lemma {:induction false} FurthestFrom(snapshot: seq<Range>, outcomes: seq<Outcome>, a: int, b: int)
    requires |snapshot| == |outcomes|
    ensures Furthest(snapshot, outcomes, if a > b then a else b)
         == var f := Furthest(snapshot, outcomes, b); if a > f then a else f
  {
    if snapshot != [] {
      FurthestFrom(snapshot[..|snapshot| - 1], outcomes[..|snapshot| - 1], a, b);
    }
  }

  lemma {:induction false} KeptMembers(snapshot: seq<Range>, outcomes: seq<Outcome>, q: Range)
    requires |snapshot| == |outcomes|
    ensures q in KeptOf(snapshot, outcomes)
       <==> exists i :: 0 <= i < |snapshot| && outcomes[i].Kept? && snapshot[i] == q
  {
    if snapshot != [] {
      var n := |snapshot| - 1;
      KeptMembers(snapshot[..n], outcomes[..n], q);
      assert forall i :: 0 <= i < n ==> snapshot[..n][i] == snapshot[i] && outcomes[..n][i] == outcomes[i];
    }
  }

  lemma CoversIn(rs: seq<Range>, x: int)
    ensures Covers(rs, x) <==> exists q :: q in rs && Contains(q, x)
  {
    if Covers(rs, x) { var i :| 0 <= i < |rs| && rs[i].start <= x <= rs[i].end; assert rs[i] in rs; }
    if q :| q in rs && Contains(q, x) { var i :| 0 <= i < |rs| && rs[i] == q; }
  }

  /** What is written is what appeared meanwhile and what was kept. */
  lemma Written(snapshot: seq<Range>, outcomes: seq<Outcome>, now: seq<Range>)
    requires |snapshot| == |outcomes|
    ensures forall x ::
      Covers(Concurrent(snapshot, now) + KeptOf(snapshot, outcomes), x)
      <==> Added(snapshot, now, x) || Left(snapshot, outcomes, x)
  {
    forall x
      ensures Covers(Concurrent(snapshot, now) + KeptOf(snapshot, outcomes), x)
         <==> Added(snapshot, now, x) || Left(snapshot, outcomes, x)
    {
      CoversConcat(Concurrent(snapshot, now), KeptOf(snapshot, outcomes), x);
      CoversIn(Concurrent(snapshot, now), x);
      CoversIn(KeptOf(snapshot, outcomes), x);
      LeftIsKept(snapshot, outcomes, x);
    }
  }

  lemma LeftIsKept(snapshot: seq<Range>, outcomes: seq<Outcome>, x: int)
    requires |snapshot| == |outcomes|
    ensures Left(snapshot, outcomes, x) <==> exists q :: q in KeptOf(snapshot, outcomes) && Contains(q, x)
  {
    if Left(snapshot, outcomes, x) {
      var i :| 0 <= i < |snapshot| && outcomes[i].Kept? && Contains(snapshot[i], x);
      KeptMembers(snapshot, outcomes, snapshot[i]);
    }
    if q :| q in KeptOf(snapshot, outcomes) && Contains(q, x) {
      KeptMembers(snapshot, outcomes, q);
    }
  }

  /** No second is lost: one that is pending when the result is written is still pending
      afterwards, unless a range of the snapshot that held it expired or was completed. */
  lemma NothingLost(snapshot: seq<Range>, outcomes: seq<Outcome>, now: seq<Range>, written: seq<Range>, x: int)
    requires |snapshot| == |outcomes|
    requires forall y :: Covers(written, y) <==> Added(snapshot, now, y) || Left(snapshot, outcomes, y)
    requires Covers(now, x)
    ensures Covers(written, x)
         || exists i :: 0 <= i < |snapshot| && Contains(snapshot[i], x) && snapshot[i] in now && !outcomes[i].Kept?
  {
    CoversIn(now, x);
    var q :| q in now && Contains(q, x);
    if q in snapshot {
      var i :| 0 <= i < |snapshot| && snapshot[i] == q;
    }
  }

  /** End to end: a second that is pending when the rounds are written and is not pending
      afterwards lay in a range that was too old or is accounted for. */
  lemma GoneIsAccounted(snapshot: seq<Range>, minStart: int, online: bool, visits: seq<Visit>, outcomes: seq<Outcome>,
      story: Story, start: Records, end: Records, now: seq<Range>, written: seq<Range>, x: int)
    requires Told(snapshot, minStart, online, visits, outcomes, story, start, end)
    requires forall y :: Covers(written, y) <==> Added(snapshot, now, y) || Left(snapshot, outcomes, y)
    requires Covers(now, x) && !Covers(written, x)
    ensures exists i ::
      0 <= i < |snapshot| && Contains(snapshot[i], x) && Discharged(snapshot[i], minStart, visits[i], story.turns[i])
  {
    NothingLost(snapshot, outcomes, now, written, x);
    var i :| 0 <= i < |snapshot| && Contains(snapshot[i], x) && snapshot[i] in now && !outcomes[i].Kept?;
    if outcomes[i].Completed? {
      CompletedIsAccounted(snapshot[i], minStart, online, visits[i], outcomes[i], story.turns[i]);
    }
  }

  /** A visit claims nothing. */
  lemma VisitClaims(range: Range, minStart: int, online: bool, visit: Visit, outcome: Outcome, turn: Turn)
    requires Decided(range, minStart, online, visit, outcome, turn) && turn.after.Some?
    ensures turn.after.value.claimed == OrBlank(turn.before).claimed
  {
    if range.end >= minStart && online && !visit.thrown.BeforeRecord? && !visit.thrown.WhileFetching? {
      var entered := Reconciled(range, OrBlank(turn.before), visit.relays);
      var s :| PassedBy(range, entered, visit.fetch, s) && Concluded(range, visit, s, turn, outcome.Completed?);
    }
  }

  /** So what is claimed in the rounds was claimed before them. */
  lemma {:induction false} RoundsClaims(snapshot: seq<Range>, minStart: int, online: bool, visits: seq<Visit>,
      outcomes: seq<Outcome>, story: Story, start: Records, end: Records, n: nat, at: Range, x: int)
    requires Told(snapshot, minStart, online, visits, outcomes, story, start, end) && n <= |snapshot|
    ensures ClaimedIn(story.states[n], at, x) <==> ClaimedIn(start, at, x)
  {
    if n > 0 {
      var i := n - 1;
      RoundsClaims(snapshot, minStart, online, visits, outcomes, story, start, end, i, at, x);
      assert Follows(story.states[i], snapshot[i], story.turns[i], story.states[n]);
      if story.turns[i].after.Some? {
        VisitClaims(snapshot[i], minStart, online, visits[i], outcomes[i], story.turns[i]);
      }
    }
  }

  /** What a completed range counts as claimed had been claimed before the call, or was
      pursued by its priority lane. */
  lemma ClaimedIsPursued(snapshot: seq<Range>, minStart: int, online: bool, priorities: seq<Range>, relays: set<int>,
      chances: seq<Chance>, visits: seq<Visit>, outcomes: seq<Outcome>, lane: Lane, story: Story, start: Records,
      i: nat, x: int)
    requires Ran(snapshot, minStart, online, priorities, relays, chances, visits, outcomes, lane, story, start)
    requires i < |snapshot| && story.turns[i].after.Some? && Covers(story.turns[i].after.value.claimed, x)
    ensures ClaimedIn(start, snapshot[i], x) || PursuedBy(lane, snapshot, chances, snapshot[i], x)
  {
    var mid := story.states[0];
    VisitClaims(snapshot[i], minStart, online, visits[i], outcomes[i], story.turns[i]);
    assert Follows(story.states[i], snapshot[i], story.turns[i], story.states[i + 1]);
    RoundsClaims(snapshot, minStart, online, visits, outcomes, story, mid, story.states[|snapshot|], i, snapshot[i], x);
    LaneClaims(snapshot, priorities, relays, chances, lane, start, mid, |lane.pulls|, snapshot[i], x);
  }

  ghost predicate PursuedBy(lane: Lane, ranges: seq<Range>, chances: seq<Chance>, at: Range, x: int)
    requires |lane.pulls| <= |ranges| == |chances|
  {
    exists j :: 0 <= j < |lane.pulls| && Pursued(at, x, ranges[j], chances[j], lane.pulls[j])
  }

  /** End to end with the lane: a second that is gone lay in a range that was too old, or was
      read, or claimed before the call, or pursued by the lane, or asked of every seeder. */
  lemma GoneIsPursued(snapshot: seq<Range>, minStart: int, online: bool, priorities: seq<Range>, relays: set<int>,
      chances: seq<Chance>, visits: seq<Visit>, outcomes: seq<Outcome>, lane: Lane, story: Story, start: Records,
      now: seq<Range>, written: seq<Range>, x: int)
    requires Ran(snapshot, minStart, online, priorities, relays, chances, visits, outcomes, lane, story, start)
    requires forall y :: Covers(written, y) <==> Added(snapshot, now, y) || Left(snapshot, outcomes, y)
    requires Covers(now, x) && !Covers(written, x)
    ensures exists i ::
      && 0 <= i < |snapshot| && Contains(snapshot[i], x)
      && (snapshot[i].end < minStart
          || (Discharged(snapshot[i], minStart, visits[i], story.turns[i])
              && (Covers(story.turns[i].after.value.read, x) || ClaimedIn(start, snapshot[i], x)
                  || PursuedBy(lane, snapshot, chances, snapshot[i], x) || Covers(story.turns[i].asked, x))))
  {
    GoneIsAccounted(snapshot, minStart, online, visits, outcomes, story, story.states[0], story.states[|snapshot|],
      now, written, x);
    var i :| 0 <= i < |snapshot| && Contains(snapshot[i], x)
      && Discharged(snapshot[i], minStart, visits[i], story.turns[i]);
    if snapshot[i].end >= minStart && Covers(story.turns[i].after.value.claimed, x) {
      ClaimedIsPursued(snapshot, minStart, online, priorities, relays, chances, visits, outcomes, lane, story, start,
        i, x);
    }
  }

  ghost predicate Discharged(range: Range, minStart: int, visit: Visit, turn: Turn) {
    range.end < minStart || (turn.after.Some? && Accounted(range, visit, turn.after.value, turn.asked))
  }
}
