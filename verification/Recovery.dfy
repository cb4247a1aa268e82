/** Recovering the gaps of a channel's history: one record per missing range keeps, relay by
    relay, the seconds still to read and how often a relay has been tried; what no relay
    will give is asked of the seeders. */
module Recovery {
  import opened Positions
  import opened Ranges
  import Totals

  datatype Tier = Unknown | AllFailed | EmptyEose | Partial

  datatype Relay = Relay(
    pending: seq<Range>, covered: seq<Range>, attempts: nat, dead: bool, eose: bool,
    events: nat, permanent: bool)

  /** What one relay reports of a fetch. `permanent` says that its first error is final. */
  datatype Entry = Entry(relay: int, eose: bool, covered: seq<Range>, pending: seq<Range>, events: nat, permanent: bool)

  datatype Fetch =
    | Reports(entries: seq<Entry>, oldest: Option<int>)
    | Entire(oldestSeen: Option<int>)

  type Plan = map<int, seq<Range>>

  const MOST_ATTEMPTS: nat := 10

  function Limit(tier: Tier): nat {
    match tier
    case Partial => 3
    case EmptyEose => 6
    case _ => MOST_ATTEMPTS
  }

  predicate Live(s: Relay) { !s.dead && !s.eose && s.pending != [] }

  function EntryFor(entries: seq<Entry>, relay: int): (found: Option<Entry>)
    ensures found.Some? ==> found.value in entries && found.value.relay == relay
    ensures found.None? ==> forall e :: e in entries ==> e.relay != relay
  {
    if entries == [] then None
    else
      var n := |entries| - 1;
      assert entries == entries[..n] + [entries[n]];
      if entries[n].relay == relay then Some(entries[n]) else EntryFor(entries[..n], relay)
  }

  /** Of several reports of a relay the last one counts. */
  lemma {:induction false} LastEntry(entries: seq<Entry>, relay: int, i: nat)
    requires i < |entries| && entries[i].relay == relay && forall j :: i < j < |entries| ==> entries[j].relay != relay
    ensures EntryFor(entries, relay) == Some(entries[i])
  {
    var n := |entries| - 1;
    if i < n { LastEntry(entries[..n], relay, i); }
  }

  function AllCovered(entries: seq<Entry>): seq<Range> {
    if entries == [] then [] else entries[0].covered + AllCovered(entries[1..])
  }

  /** What some entry reports as read, and no more. */
  lemma {:induction false} AllCoveredExactly(entries: seq<Entry>, x: int)
    ensures Covers(AllCovered(entries), x) <==> exists e :: e in entries && Covers(e.covered, x)
  {
    if entries != [] {
      assert entries == [entries[0]] + entries[1..];
      CoversConcat(entries[0].covered, AllCovered(entries[1..]), x);
      AllCoveredExactly(entries[1..], x);
    }
  }

  lemma {:induction false} EntryIsCovered(entries: seq<Entry>, entry: Entry, x: int)
    requires entry in entries && Covers(entry.covered, x)
    ensures Covers(AllCovered(entries), x)
  {
    CoversConcat(entries[0].covered, AllCovered(entries[1..]), x);
    if entries[0] != entry {
      assert entries == [entries[0]] + entries[1..];
      EntryIsCovered(entries[1..], entry, x);
    }
  }

  /** A fetch reports only the relays it asked, and one that ends without anything pending
      has read all it was asked for. */
  ghost predicate Honest(entries: seq<Entry>, asked: Plan) {
    forall e :: e in entries ==>
      (e.relay in asked && (e.eose && e.pending == [] ==> Subset(asked[e.relay], e.covered)))
  }

  ghost predicate Subset(a: seq<Range>, b: seq<Range>) {
    forall x :: Covers(a, x) ==> Covers(b, x)
  }

  predicate Contains(range: Range, x: int) { range.start <= x <= range.end }

  /** A relay's seconds are accounted for: one that is through leaves nothing of the range
      uncovered, another still has every second that neither it read nor a seeder was asked for. */
  ghost predicate RelayOk(range: Range, covered: seq<Range>, claimed: seq<Range>, s: Relay) {
    && Subset(s.covered, covered)
    && (s.eose ==> s.pending == [] && forall x :: Contains(range, x) ==> Covers(covered, x))
    && (!s.eose ==> forall x :: Contains(range, x) ==>
          Covers(s.pending, x) || Covers(s.covered, x) || Covers(claimed, x))
    && (Live(s) ==> s.attempts < MOST_ATTEMPTS)
  }

  /** From `s` to `t` a relay only gets on: it does not revive, and no attempt is forgotten
      as long as it is live. */
  predicate GetsOn(s: Relay, t: Relay) {
    Live(t) ==> Live(s) && t.attempts >= s.attempts
  }

  lemma EmptyOfNone(rs: seq<Range>)
    requires Normal(rs) && forall x :: !Covers(rs, x)
    ensures rs == []
  {
    assert rs != [] ==> Covers(rs, rs[0].start);
  }

  /** The new to-do list of a relay that is not through. */
  ghost predicate Remaining(range: Range, pending: seq<Range>, covered: seq<Range>, claimed: seq<Range>) {
    && Normal(pending)
    && forall x :: Covers(pending, x) <==> Contains(range, x) && !Covers(covered, x) && !Covers(claimed, x)
  }

  method RemainingOf(range: Range, covered: seq<Range>, claimed: seq<Range>) returns (pending: seq<Range>)
    ensures Remaining(range, pending, covered, claimed)
  {
    var all := MergeRanges(covered + claimed);
    pending := SubtractRanges(range, all);
    forall x ensures Covers(all, x) <==> Covers(covered, x) || Covers(claimed, x) {
      CoversConcat(covered, claimed, x);
    }
  }

  lemma RemainingOk(range: Range, covered: seq<Range>, claimed: seq<Range>, s: Relay, t: Relay, more: seq<Range>,
      claims: seq<Range>)
    requires RelayOk(range, covered, claimed, s) && !s.eose && !t.eose
    requires Subset(s.covered, t.covered) && Subset(t.covered, more) && Subset(claimed, claims)
    requires Remaining(range, t.pending, t.covered, claims) && t.attempts == s.attempts && t.dead == s.dead
    ensures RelayOk(range, more, claims, t) && GetsOn(s, t)
  {
    if s.pending == [] {
      forall x ensures !Covers(t.pending, x) { }
      EmptyOfNone(t.pending);
    }
  }

  // ------------------------------------------------------- one relay's update

  /** What a report makes of a relay: what it read is added, and it is through when a fetch
      of all it had to do ended well; otherwise the rest is still to do. */
  ghost predicate Reported(range: Range, claimed: seq<Range>, s: Relay, entry: Entry, whole: bool, t: Relay) {
    && t.dead == s.dead && t.eose == (whole && entry.eose && entry.pending == [])
    && t.attempts == (if t.eose then 0 else s.attempts) && t.events == s.events + entry.events
    && (forall x :: Covers(t.covered, x) <==> Covers(s.covered, x) || Covers(entry.covered, x))
    && (if t.eose then t.pending == [] else Remaining(range, t.pending, t.covered, claimed))
    && t.permanent == entry.permanent
  }

  /** updateRecoveryRecord for one relay. `whole` says that the fetch was for everything
      the relay still has to do, so ending it well finishes the relay. */
  method UpdateRelay(range: Range, claimed: seq<Range>, s: Relay, entry: Entry, whole: bool) returns (t: Relay)
    ensures Reported(range, claimed, s, entry, whole, t)
  {
    var done := whole && entry.eose && entry.pending == [];
    var merged := MergeRanges(s.covered + entry.covered);
    forall x ensures Covers(merged, x) <==> Covers(s.covered, x) || Covers(entry.covered, x) {
      CoversConcat(s.covered, entry.covered, x);
    }
    var pending := [];
    if !done { pending := RemainingOf(range, merged, claimed); }
    t := Relay(pending, merged, if done then 0 else s.attempts, s.dead, done, s.events + entry.events, entry.permanent);
  }

  /** The update keeps the relay's seconds accounted for. */
  lemma UpdateOk(range: Range, covered: seq<Range>, claimed: seq<Range>, more: seq<Range>, s: Relay, t: Relay,
      entry: Entry, asked: seq<Range>, whole: bool)
    requires RelayOk(range, covered, claimed, s) && !s.eose
    requires Subset(claimed, covered) && Subset(covered, more) && Subset(entry.covered, more)
    requires entry.eose && entry.pending == [] ==> Subset(asked, entry.covered)
    requires whole ==> asked == s.pending
    requires Reported(range, claimed, s, entry, whole, t)
    ensures RelayOk(range, more, claimed, t) && (Live(s) ==> GetsOn(s, t)) && (Live(t) ==> Live(s))
  {
    if t.eose {
      forall x | Contains(range, x) ensures Covers(more, x) {
        assert Covers(s.pending, x) || Covers(s.covered, x) || Covers(claimed, x);
      }
    } else {
      RemainingOk(range, covered, claimed, s, t, more, claimed);
    }
  }

  /** applyRecoveryRetryBudget for one relay. */
  function Budgeted(s: Relay, limit: nat): (t: Relay)
    ensures Live(t) ==> Live(s) && t.attempts == s.attempts + 1 && t.attempts < limit && !t.permanent
    ensures t.(attempts := s.attempts, dead := s.dead) == s
  {
    if !Live(s) then s
    else s.(attempts := s.attempts + 1, dead := s.attempts + 1 >= limit || s.permanent)
  }

  /** The loop of updateRecoveryRecord over the relays of a record. */
  method UpdateRelays(range: Range, ghost before: seq<Range>, claimed: seq<Range>, ghost after: seq<Range>,
      was: map<int, Relay>,
      entries: seq<Entry>, whole: bool, ghost asked: Plan)
    returns (relays: map<int, Relay>, ended: bool, endedWithEvents: bool)
    requires forall r :: r in was ==> RelayOk(range, before, claimed, was[r])
    requires Subset(claimed, before) && Subset(before, after) && Subset(AllCovered(entries), after)
    requires Honest(entries, asked)
    requires forall r :: r in asked ==> r in was && Live(was[r]) && (whole ==> asked[r] == was[r].pending)
    ensures relays.Keys == was.Keys
    ensures forall r :: r in relays ==> Updated(range, claimed, after, entries, r, was[r], whole, relays[r])
    ensures ended <==> SomeEnded(entries, relays.Keys)
    ensures endedWithEvents <==> SomeEndedWithEvents(entries, relays, relays.Keys)
  {
    relays, ended, endedWithEvents := was, false, false;
    var todo := relays.Keys;
    while todo != {}
      invariant todo <= relays.Keys && relays.Keys == was.Keys
      invariant forall r :: r in todo ==> relays[r] == was[r]
      invariant forall r ::
        r in relays && r !in todo ==> Updated(range, claimed, after, entries, r, was[r], whole, relays[r])
      invariant ended <==> SomeEnded(entries, relays.Keys - todo)
      invariant endedWithEvents <==> SomeEndedWithEvents(entries, relays, relays.Keys - todo)
      decreases todo
    {
      var r := Totals.Pick(todo);
      todo := todo - {r};
      var t := UpdateOne(range, before, claimed, after, relays[r], r, entries, whole, asked);
      ghost var prior := relays;
      relays := relays[r := t];
      if Ended(entries, r) {
        ended := true;
        if t.events > 0 { endedWithEvents := true; }
      }
    }
  }

  ghost predicate SomeEnded(entries: seq<Entry>, among: set<int>) {
    exists r :: r in among && Ended(entries, r)
  }

  ghost predicate SomeEndedWithEvents(entries: seq<Entry>, relays: map<int, Relay>, among: set<int>)
    requires among <= relays.Keys
  {
    exists r :: r in among && Ended(entries, r) && relays[r].events > 0
  }

  /** What an update leaves of one relay. */
  ghost predicate Updated(range: Range, claimed: seq<Range>, after: seq<Range>, entries: seq<Entry>, r: int,
      s: Relay, whole: bool, t: Relay) {
    && RelayOk(range, after, claimed, t) && GetsOn(s, t)
    && match EntryFor(entries, r) {
       case None => t == s
       case Some(entry) => Reported(range, claimed, s, entry, whole, t)
       }
  }

  method UpdateOne(range: Range, ghost before: seq<Range>, claimed: seq<Range>, ghost after: seq<Range>, s: Relay,
      r: int, entries: seq<Entry>, whole: bool, ghost asked: Plan)
    returns (t: Relay)
    requires RelayOk(range, before, claimed, s)
    requires Subset(claimed, before) && Subset(before, after) && Subset(AllCovered(entries), after)
    requires Honest(entries, asked)
    requires r in asked ==> Live(s) && (whole ==> asked[r] == s.pending)
    ensures Updated(range, claimed, after, entries, r, s, whole, t)
  {
    var found := EntryFor(entries, r);
    if found.None? {
      return s;
    }
    var entry := found.value;
    t := UpdateRelay(range, claimed, s, entry, whole);
    forall x | Covers(entry.covered, x) ensures Covers(after, x) { EntryIsCovered(entries, entry, x); }
    UpdateOk(range, before, claimed, after, s, t, entry, asked[r], whole);
  }

  // ------------------------------------------------------------------ the record

  /** The fields of a record at one moment, and everything relays have reported as read. */
  datatype Known = Known(
    covered: seq<Range>, claimed: seq<Range>, relays: map<int, Relay>,
    everEose: bool, everEoseWithEvents: bool, tier: Tier, oldest: Option<int>, read: seq<Range>)

  const BLANK: Known := Known([], [], map[], false, false, Unknown, None, [])

  /** Covered is what relays have read and what seeders have been asked for, and no relay
      has lost a second. */
  ghost predicate Sound(range: Range, s: Known) {
    && (forall x :: Covers(s.covered, x) <==> Covers(s.read, x) || Covers(s.claimed, x))
    && forall r :: r in s.relays ==> RelayOk(range, s.covered, s.claimed, s.relays[r])
  }

  predicate SomeLive(relays: map<int, Relay>) { exists r :: r in relays && Live(relays[r]) }

  /** recoveryRelayPlan: what each live relay still has to read. */
  function PlanOf(relays: map<int, Relay>): Plan {
    map r | r in relays && Live(relays[r]) :: relays[r].pending
  }

  function NewRelay(range: Range): Relay { Relay([range], [], 0, false, false, 0, false) }

  /** The record follows the channel's relays: one that stays keeps its state, a new one
      starts with the whole range. */
  function Reconciled(range: Range, s: Known, current: set<int>): Known {
    s.(relays := map r | r in current :: if r in s.relays then s.relays[r] else NewRelay(range))
  }

  /** Every relay that still has something to do has used up one attempt. */
  function Charged(s: Known): Known {
    s.(relays := map r | r in s.relays :: Budgeted(s.relays[r], Limit(s.tier)))
  }

  function GivenUp(s: Known): Known {
    s.(relays := map r | r in s.relays :: s.relays[r].(dead := true))
  }

  function TierOf(ended: bool, endedWithEvents: bool): Tier {
    if endedWithEvents then Partial else if ended then EmptyEose else AllFailed
  }

  function Earlier(a: Option<int>, b: Option<int>): (r: Option<int>)
    ensures r.None? <==> a.None? && b.None?
    ensures r.Some? ==> r in {a, b} && (a.Some? ==> r.value <= a.value) && (b.Some? ==> r.value <= b.value)
  {
    if b.None? then a else if a.None? || b.value < a.value then b else a
  }

  ghost predicate Union(c: seq<Range>, a: seq<Range>, b: seq<Range>) {
    Normal(c) && forall x :: Covers(c, x) <==> Covers(a, x) || Covers(b, x)
  }

  ghost predicate Meet(c: seq<Range>, a: seq<Range>, b: seq<Range>) {
    Normal(c) && forall x :: Covers(c, x) <==> Covers(a, x) && Covers(b, x)
  }

  /** What the reports of a fetch make of a record: exactly what they say has been read is
      added, relay by relay and in all. */
  ghost predicate UpdatedBy(range: Range, s: Known, t: Known, entries: seq<Entry>, seen: Option<int>, whole: bool) {
    && t.relays.Keys == s.relays.Keys && t.claimed == s.claimed
    && t.read == s.read + AllCovered(entries) && Union(t.covered, s.covered, AllCovered(entries))
    && (forall r :: r in t.relays ==> Updated(range, s.claimed, t.covered, entries, r, s.relays[r], whole, t.relays[r]))
    && (t.everEose <==> s.everEose || SomeEnded(entries, t.relays.Keys))
    && (t.everEoseWithEvents <==> s.everEoseWithEvents || SomeEndedWithEvents(entries, t.relays, t.relays.Keys))
    && t.tier == TierOf(t.everEose, t.everEoseWithEvents) && t.oldest == Earlier(s.oldest, seen)
  }

  /** What a reader without partial results makes of it: the range has been read. */
  ghost predicate TakenWhole(range: Range, s: Known, t: Known, seen: Option<int>) {
    && Union(t.covered, s.covered, [range])
    && t == s.(covered := t.covered, read := s.read + [range], tier := Partial, oldest := Earlier(s.oldest, seen),
      relays := map r | r in s.relays :: s.relays[r].(eose := true, pending := []))
  }

  /** One pass: the live relays are asked for what they still have to do, the answer is
      taken in, and those that are live after it are charged. */
  ghost predicate PassedBy(range: Range, s: Known, fetch: Plan -> Fetch, t: Known) {
    if !SomeLive(s.relays) then t == s
    else match fetch(PlanOf(s.relays)) {
      case Reports(entries, seen) => exists u :: UpdatedBy(range, s, u, entries, seen, true) && t == Charged(u)
      case Entire(seen) => TakenWhole(range, s, t, seen)
    }
  }

  /** The attempts a relay has: ten while none has ended well, six once one has, three once
      one has ended well with events. */
  function Attempts(s: Known): nat {
    if s.everEoseWithEvents then 3 else if s.everEose then 6 else 10
  }

  /** Exactly when a relay is tried again: it was live, the pass did not bring it to the end
      of what it has to do, its error is not final and it has attempts left. It is then
      asked for exactly what is still to do. */
  lemma TriedAgain(range: Range, s: Known, u: Known, entries: seq<Entry>, seen: Option<int>, r: int)
    requires UpdatedBy(range, s, u, entries, seen, true) && r in s.relays && Live(s.relays[r])
    ensures var t, v := Charged(u).relays, u.relays[r];
      && (r in PlanOf(t) <==> !v.eose && v.pending != [] && !v.dead && !v.permanent && v.attempts + 1 < Attempts(u))
      && (r in PlanOf(t) ==> PlanOf(t)[r] == v.pending && t[r].attempts == v.attempts + 1)
  {
  }

  /** A relay without a report has the same to do, another exactly the seconds of the range
      that neither it has read nor anybody was asked for. */
  lemma StillToDo(range: Range, s: Known, u: Known, entries: seq<Entry>, seen: Option<int>, r: int)
    requires UpdatedBy(range, s, u, entries, seen, true) && r in s.relays && !u.relays[r].eose
    ensures if forall e :: e in entries ==> e.relay != r then u.relays[r] == s.relays[r]
      else forall x ::
        Covers(u.relays[r].pending, x)
        <==> Contains(range, x) && !Covers(u.relays[r].covered, x) && !Covers(s.claimed, x)
  {
    assert Updated(range, s.claimed, u.covered, entries, r, s.relays[r], true, u.relays[r]);
  }

  /** The channel's relays and no others; those that stay as they are, new ones with all to do. */
  lemma FollowsRelays(range: Range, s: Known, current: set<int>)
    ensures var t := Reconciled(range, s, current);
      && t.relays.Keys == current && t == s.(relays := t.relays)
      && (forall r :: r in current && r in s.relays ==> t.relays[r] == s.relays[r])
      && forall r, x :: r in current && r !in s.relays ==>
           !t.relays[r].dead && !t.relays[r].eose && t.relays[r].attempts == 0
           && (Covers(t.relays[r].pending, x) <==> Contains(range, x))
  {
    forall x ensures Covers([range], x) <==> Contains(range, x) { CoversOne(range, x); }
  }

  /** What seeders have been asked for need not be read; nothing else changes. */
  ghost predicate ClaimedBy(range: Range, s: Known, t: Known, ranges: seq<Range>) {
    if ranges == [] then t == s
    else
      && t == s.(covered := t.covered, claimed := t.claimed, relays := t.relays) && t.relays.Keys == s.relays.Keys
      && Union(t.covered, s.covered, ranges) && Union(t.claimed, s.claimed, ranges)
      && forall r :: r in t.relays ==>
        LessToDo(range, t.claimed, s.relays[r], t.relays[r]) && GetsOn(s.relays[r], t.relays[r])
  }

  /** The part of `priorities` that lies in the range and that nobody covers yet. */
  ghost predicate Wanted(range: Range, covered: seq<Range>, priorities: seq<Range>, wanted: seq<Range>) {
    && Normal(wanted)
    && forall x :: Covers(wanted, x) <==> Covers(priorities, x) && Contains(range, x) && !Covers(covered, x)
  }

  /** The priority lane over one range: only the answer of the relay that was asked changes
      the record, and only an answer without partial results is taken as a claim. */
  ghost predicate PrioritizedBy(range: Range, s: Known, t: Known, wanted: seq<Range>, winner: Option<int>,
      asked: seq<Range>, fetch: Plan -> Fetch) {
    if winner.None? || winner.value !in s.relays || !Live(s.relays[winner.value]) then t == s
    else
      && Meet(asked, s.relays[winner.value].pending, wanted)
      && if asked == [] then t == s
         else match fetch(map[winner.value := asked]) {
           case Reports(entries, seen) => UpdatedBy(range, s, t, entries, seen, false)
           case Entire(_) => ClaimedBy(range, s, t, wanted)
         }
  }

  /** What finalizing asks the seeders for: the uncovered seconds, and those up to the
      oldest event any relay returned. */
  ghost predicate Missing(range: Range, s: Known, asked: seq<Range>) {
    && Normal(asked)
    && forall x ::
         Covers(asked, x) <==> Contains(range, x) && (!Covers(s.covered, x) || BeforeOldest(s.oldest, range, x))
  }

  lemma UpdatedSound(range: Range, s: Known, t: Known, entries: seq<Entry>, seen: Option<int>, whole: bool)
    requires Sound(range, s) && UpdatedBy(range, s, t, entries, seen, whole)
    ensures Sound(range, t)
  {
    ReadMore(s.covered, s.read, s.claimed, AllCovered(entries), t.covered);
  }

  /** After a pass a relay is live only if it was before, at the price of an attempt. */
  lemma PassAttempts(range: Range, s: Known, fetch: Plan -> Fetch, t: Known)
    requires PassedBy(range, s, fetch, t)
    ensures t.relays.Keys == s.relays.Keys
    ensures forall r ::
      r in t.relays ==> Attempted(s.relays[r], t.relays[r], Limit(t.tier)) && GetsOn(s.relays[r], t.relays[r])
  {
  }

  lemma NewRelayOk(range: Range, covered: seq<Range>, claimed: seq<Range>)
    ensures RelayOk(range, covered, claimed, NewRelay(range))
  {
    forall x | Contains(range, x) ensures Covers([range], x) { CoversOne(range, x); }
  }

  /** The loops of reconcileRecoveryRelays: relays that left go, new ones are added. */
  method FollowRelays(range: Range, was: map<int, Relay>, current: set<int>) returns (relays: map<int, Relay>)
    ensures relays == map r | r in current :: if r in was then was[r] else NewRelay(range)
  {
    var gone := was.Keys - current;
    relays := was - gone;
    var added := current - relays.Keys;
    while added != {}
      invariant added <= current && added !! was.Keys && relays.Keys == current - added
      invariant forall r :: r in relays ==> relays[r] == if r in was then was[r] else NewRelay(range)
      decreases added
    {
      var r := Totals.Pick(added);
      added := added - {r};
      relays := relays[r := NewRelay(range)];
    }
    ghost var goal := map r | r in current :: if r in was then was[r] else NewRelay(range);
    assert relays.Keys == goal.Keys;
    forall r | r in goal ensures relays[r] == goal[r] {}
    assert relays == goal;
  }

  /** The loop of applyRecoveryRetryBudget. */
  method ChargeRelays(was: map<int, Relay>, limit: nat) returns (relays: map<int, Relay>)
    ensures relays == map r | r in was :: Budgeted(was[r], limit)
  {
    relays := was;
    var todo := was.Keys;
    while todo != {}
      invariant todo <= was.Keys && relays.Keys == was.Keys
      invariant forall r :: r in relays ==> relays[r] == if r in todo then was[r] else Budgeted(was[r], limit)
      decreases todo
    {
      var r := Totals.Pick(todo);
      todo := todo - {r};
      relays := relays[r := Budgeted(was[r], limit)];
    }
    ghost var goal := map r | r in was :: Budgeted(was[r], limit);
    assert relays.Keys == goal.Keys;
    forall r | r in goal ensures relays[r] == goal[r] {}
    assert relays == goal;
  }

  /** What is newly read or claimed joins what is covered. */
  method Joined(covered: seq<Range>, added: seq<Range>) returns (after: seq<Range>)
    ensures Union(after, covered, added)
  {
    after := MergeRanges(covered + added);
    forall x ensures Covers(after, x) <==> Covers(covered, x) || Covers(added, x) { CoversConcat(covered, added, x); }
  }

  class RangeRecord {
    const range: Range
    var covered: seq<Range>
    var claimed: seq<Range>
    var relays: map<int, Relay>
    var everEose: bool
    var everEoseWithEvents: bool
    var tier: Tier
    var oldest: Option<int>
    /** Everything any relay has reported as read. */
    ghost var read: seq<Range>

    ghost function Now(): Known
      reads this
    {
      Known(covered, claimed, relays, everEose, everEoseWithEvents, tier, oldest, read)
    }

    ghost predicate Valid()
      reads this
    {
      Sound(range, Now())
    }

    predicate Active()
      reads this
    {
      SomeLive(relays)
    }

    constructor (range: Range)
      ensures Valid() && this.range == range && Now() == BLANK
    {
      this.range := range;
      covered, claimed, relays, read := [], [], map[], [];
      everEose, everEoseWithEvents, tier, oldest := false, false, Unknown, None;
    }

    /** reconcileRecoveryRelays. */
    method Reconcile(current: set<int>)
      requires Valid()
      modifies `relays
      ensures Valid() && Now() == Reconciled(range, old(Now()), current)
    {
      relays := FollowRelays(range, relays, current);
      NewRelayOk(range, covered, claimed);
    }

    /** updateRecoveryRecord: the reports of a fetch that asked `asked`. A relay that ends
        well is through only when the fetch was for all it had to do. */
    method Update(entries: seq<Entry>, seen: Option<int>, whole: bool, ghost asked: Plan)
      requires Valid() && Honest(entries, asked)
      requires forall r :: r in asked ==> r in relays && Live(relays[r]) && (whole ==> asked[r] == relays[r].pending)
      modifies `covered, `relays, `everEose, `everEoseWithEvents, `tier, `oldest, `read
      ensures Valid() && UpdatedBy(range, old(Now()), Now(), entries, seen, whole)
    {
      TakeReports(entries, seen, whole, asked);
      UpdatedSound(range, old(Now()), Now(), entries, seen, whole);
    }

    /** The fields after an update. */
    method TakeReports(entries: seq<Entry>, seen: Option<int>, whole: bool, ghost asked: Plan)
      requires Valid() && Honest(entries, asked)
      requires forall r :: r in asked ==> r in relays && Live(relays[r]) && (whole ==> asked[r] == relays[r].pending)
      modifies `covered, `relays, `everEose, `everEoseWithEvents, `tier, `oldest, `read
      ensures UpdatedBy(range, old(Now()), Now(), entries, seen, whole)
    {
      ghost var before := covered;
      covered := Joined(covered, AllCovered(entries));
      ReadMore(before, read, claimed, AllCovered(entries), covered);
      read := read + AllCovered(entries);
      oldest := Earlier(oldest, seen);
      var ended, endedWithEvents;
      relays, ended, endedWithEvents := UpdateRelays(range, before, claimed, covered, relays, entries, whole, asked);
      everEose := everEose || ended;
      everEoseWithEvents := everEoseWithEvents || endedWithEvents;
      tier := TierOf(everEose, everEoseWithEvents);
    }

    /** applyRecoveryRetryBudget: every relay that still has something to do has used up
        one attempt, and the last one is final. */
    method ApplyBudget()
      requires Valid()
      modifies `relays
      ensures Valid() && Now() == Charged(old(Now()))
    {
      relays := ChargeRelays(relays, Limit(tier));
    }

    /** applyRecoveryCoverage: what seeders have been asked for need not be read. */
    method Claim(ranges: seq<Range>)
      requires Valid()
      modifies `covered, `claimed, `relays
      ensures Valid() && ClaimedBy(range, old(Now()), Now(), ranges)
    {
      if ranges == [] { return; }
      ghost var before, claims := covered, claimed;
      claimed := Joined(claimed, ranges);
      covered := Joined(covered, ranges);
      relays := ClaimRelays(range, before, claims, covered, claimed, relays);
    }

    /** A permanent failure of the whole pass. */
    method GiveUp()
      requires Valid()
      modifies `relays
      ensures Valid() && Now() == GivenUp(old(Now())) && !Active()
    {
      relays := map r | r in relays :: relays[r].(dead := true);
    }

    /** One pass over the range: fetch what the live relays still have to do, take in the
        answer, charge the attempt. */
    method Pass(fetch: Plan -> Fetch)
      requires Valid() && HonestFetch(fetch)
      modifies `covered, `relays, `everEose, `everEoseWithEvents, `tier, `oldest, `read
      ensures Valid() && PassedBy(range, old(Now()), fetch, Now())
    {
      var plan := PlanOf(relays);
      if plan.Keys == {} {
        assert forall r :: r in relays && Live(relays[r]) ==> r in plan;
        return;
      }
      assert SomeLive(relays) by { var r := Totals.Member(plan.Keys); }
      var answer := fetch(plan);
      match answer {
        case Reports(entries, seen) =>
          Update(entries, seen, true, plan);
          ghost var updated := Now();
          ApplyBudget();
          assert UpdatedBy(range, old(Now()), updated, entries, seen, true) && Now() == Charged(updated);
        case Entire(seen) => TakeWhole(seen);
      }
    }

    /** A fetch that resolves only when everything was read. */
    method TakeWhole(seen: Option<int>)
      requires Valid()
      modifies `covered, `relays, `tier, `oldest, `read
      ensures Valid() && TakenWhole(range, old(Now()), Now(), seen)
    {
      ghost var before := covered;
      covered := Joined(covered, [range]);
      ReadMore(before, read, claimed, [range], covered);
      read := read + [range];
      forall x | Contains(range, x) ensures Covers([range], x) { CoversOne(range, x); }
      oldest := Earlier(oldest, seen);
      relays := map r | r in relays :: relays[r].(eose := true, pending := []);
      tier := Partial;
    }

    /** One range of the priority lane: the part of `priorities` that nobody covers yet is
        fetched from one live relay ahead of the pass. Returns what is still uncovered. */
    method Prioritize(priorities: seq<Range>, winner: Option<int>, fetch: Plan -> Fetch)
      returns (uncovered: seq<Range>, ghost wanted: seq<Range>, ghost asked: seq<Range>)
      requires Valid() && HonestFetch(fetch)
      modifies `covered, `claimed, `relays, `everEose, `everEoseWithEvents, `tier, `oldest, `read
      ensures Valid() && Wanted(range, old(covered), priorities, wanted)
      ensures PrioritizedBy(range, old(Now()), Now(), wanted, winner, asked, fetch)
      ensures Wanted(range, covered, priorities, uncovered)
    {
      var part := OpenPart(range, covered, priorities);
      wanted, asked := part, [];
      ghost var before := covered;
      if winner.Some? && winner.value in relays && Live(relays[winner.value]) {
        var interval := IntersectRanges(relays[winner.value].pending, part);
        asked := interval;
        if interval != [] {
          var plan := map[winner.value := interval];
          var answer := fetch(plan);
          match answer {
            case Reports(entries, seen) => Update(entries, seen, false, plan);
            case Entire(_) => Claim(part);
          }
        }
      }
      assert Subset(before, covered);
      uncovered := StillOpen(range, before, covered, priorities, part);
    }

    /** finalizeRecoveryRange: what neither relays nor earlier asks covered, and everything
        up to the oldest event any relay returned, is asked of the seeders. */
    method Finalize(online: bool, seeders: seq<int>, ask: (int, Range) -> bool)
      returns (complete: bool, asked: seq<Range>)
      requires Valid()
      ensures !online ==> !complete && asked == []
      ensures online ==> (complete <==> forall q :: q in asked ==> AllAsked(seeders, q, ask))
      ensures online ==> Missing(range, Now(), asked)
    {
      if !online { return false, []; }
      var open := SubtractRanges(range, covered);
      var edge := if oldest.None? then [range]
        else if oldest.value > range.start then
          [Range(range.start, if oldest.value < range.end then oldest.value else range.end)]
        else [];
      asked := MergeRanges(open + edge);
      forall x
        ensures Covers(asked, x) <==> Contains(range, x) && (!Covers(covered, x) || BeforeOldest(oldest, range, x))
      {
        CoversConcat(open, edge, x);
        if edge != [] { CoversOne(edge[0], x); }
      }
      complete := true;
      for k := 0 to |asked|
        invariant complete <==> forall q :: q in asked[..k] ==> AllAsked(seeders, q, ask)
      {
        var failed := AskSeeders(seeders, asked[k], ask);
        assert asked[..k + 1] == asked[..k] + [asked[k]];
        if failed > 0 { complete := false; }
      }
      assert asked[..|asked|] == asked;
    }

    method Do(move: Move)
      requires Valid() && HonestMove(move)
      modifies `covered, `claimed, `relays, `everEose, `everEoseWithEvents, `tier, `oldest, `read
      ensures Valid() && relays.Keys == old(relays).Keys
      ensures forall r :: r in relays ==> GetsOn(old(relays)[r], relays[r])
      ensures move.Try? ==> forall r :: r in relays ==> Attempted(old(relays)[r], relays[r], Limit(tier))
    {
      match move {
        case Try(fetch) =>
          Pass(fetch);
          PassAttempts(range, old(Now()), fetch, Now());
        case Early(priorities, winner, fetch) =>
          ghost var wanted, asked;
          var uncovered;
          uncovered, wanted, asked := Prioritize(priorities, winner, fetch);
        case Asked(ranges) => Claim(ranges);
        case Permanent => GiveUp();
      }
    }

    /** Any history of one record while the channel's relays stay the same: after ten passes
        no relay is live, and right after a pass the tier's own limit has the same force. */
    method Run(moves: seq<Move>)
      requires Valid() && forall m :: m in moves ==> HonestMove(m)
      modifies `covered, `claimed, `relays, `everEose, `everEoseWithEvents, `tier, `oldest, `read
      ensures Valid() && relays.Keys == old(relays).Keys
      ensures Passes(moves) >= MOST_ATTEMPTS ==> !Active()
      ensures moves != [] && moves[|moves| - 1].Try? && Passes(moves) >= Limit(tier) ==> !Active()
    {
      for k := 0 to |moves|
        invariant Valid() && relays.Keys == old(relays).Keys
        invariant forall r :: r in relays && Live(relays[r]) ==> relays[r].attempts >= Passes(moves[..k])
        invariant k > 0 && moves[k - 1].Try? ==>
          forall r :: r in relays && Live(relays[r]) ==> relays[r].attempts < Limit(tier)
      {
        PassesNext(moves, k);
        Do(moves[k]);
      }
      assert moves[..|moves|] == moves;
    }
  }

  /** Covered stays what has been read or claimed when something more has been read. */
  lemma ReadMore(before: seq<Range>, read: seq<Range>, claimed: seq<Range>, added: seq<Range>, after: seq<Range>)
    requires forall x :: Covers(before, x) <==> Covers(read, x) || Covers(claimed, x)
    requires Union(after, before, added)
    ensures forall x :: Covers(after, x) <==> Covers(read + added, x) || Covers(claimed, x)
    ensures Subset(before, after) && Subset(added, after) && Subset(claimed, before)
  {
    forall x ensures Covers(after, x) <==> Covers(read + added, x) || Covers(claimed, x) {
      CoversConcat(read, added, x);
    }
  }

  method OpenPart(range: Range, covered: seq<Range>, priorities: seq<Range>) returns (wanted: seq<Range>)
    ensures Wanted(range, covered, priorities, wanted)
  {
    var inside := IntersectRanges(priorities, [range]);
    var open := SubtractRanges(range, covered);
    wanted := IntersectRanges(inside, open);
    forall x ensures Covers(wanted, x) <==> Covers(priorities, x) && Contains(range, x) && !Covers(covered, x) {
      CoversOne(range, x);
    }
  }

  method StillOpen(range: Range, ghost before: seq<Range>, covered: seq<Range>, ghost priorities: seq<Range>,
      wanted: seq<Range>)
    returns (uncovered: seq<Range>)
    requires Wanted(range, before, priorities, wanted) && Subset(before, covered)
    ensures Wanted(range, covered, priorities, uncovered)
  {
    var open := SubtractRanges(range, covered);
    uncovered := IntersectRanges(wanted, open);
  }

  /** What can happen to a record between two changes of the channel's relays. */
  datatype Move =
    | Try(fetch: Plan -> Fetch)
    | Early(priorities: seq<Range>, winner: Option<int>, early: Plan -> Fetch)
    | Asked(ranges: seq<Range>)
    | Permanent

  ghost predicate HonestFetch(fetch: Plan -> Fetch) {
    forall plan: Plan :: fetch(plan).Reports? ==> Honest(fetch(plan).entries, plan)
  }

  ghost predicate HonestMove(move: Move) {
    match move
    case Try(fetch) => HonestFetch(fetch)
    case Early(_, _, fetch) => HonestFetch(fetch)
    case _ => true
  }

  function Passes(moves: seq<Move>): nat {
    if moves == [] then 0 else Passes(moves[..|moves| - 1]) + if moves[|moves| - 1].Try? then 1 else 0
  }

  lemma PassesNext(moves: seq<Move>, k: nat)
    requires k < |moves|
    ensures Passes(moves[..k + 1]) == Passes(moves[..k]) + if moves[k].Try? then 1 else 0
  {
    assert moves[..k + 1][..k] == moves[..k];
  }

  /** The left edge: relays may have dropped what is older than the oldest event they gave. */
  predicate BeforeOldest(oldest: Option<int>, range: Range, x: int) {
    oldest.None? || (oldest.value > range.start && x <= oldest.value)
  }

  predicate AllAsked(seeders: seq<int>, range: Range, ask: (int, Range) -> bool) {
    forall i :: 0 <= i < |seeders| ==> ask(seeders[i], range)
  }

  /** Every seeder is asked, also after one has failed; an empty range is asked of nobody. */
  method AskSeeders(seeders: seq<int>, range: Range, ask: (int, Range) -> bool) returns (failures: nat)
    requires range.start <= range.end
    ensures failures == 0 <==> AllAsked(seeders, range, ask)
  {
    failures := 0;
    for i := 0 to |seeders|
      invariant failures == 0 <==> forall j :: 0 <= j < i ==> ask(seeders[j], range)
    {
      if !ask(seeders[i], range) { failures := failures + 1; }
    }
  }

  /** askPrioritySeeders: without an active seeder nothing is claimed, and an interval is
      claimed exactly when every active seeder has been asked for it. */
  method AskPriority(seeders: seq<int>, intervals: seq<Range>, ask: (int, Range) -> bool)
    returns (claimed: seq<Range>, ghost merged: seq<Range>)
    ensures Normal(merged) && forall x :: Covers(merged, x) <==> Covers(intervals, x)
    ensures forall q :: q in claimed <==> seeders != [] && q in merged && AllAsked(seeders, q, ask)
  {
    claimed := [];
    var parts := MergeRanges(intervals);
    merged := parts;
    if seeders == [] { return; }
    for k := 0 to |parts|
      invariant forall q :: q in claimed <==> q in parts[..k] && AllAsked(seeders, q, ask)
    {
      var failures := AskSeeders(seeders, parts[k], ask);
      assert parts[..k + 1] == parts[..k] + [parts[k]];
      if failures == 0 { claimed := claimed + [parts[k]]; }
    }
    assert parts[..|parts|] == parts;
  }

  /** What one pass leaves of a relay: it is still live only if it was before, at the price
      of an attempt within the limit. */
  predicate Attempted(s: Relay, t: Relay, limit: nat) {
    Live(t) ==> Live(s) && s.attempts + 1 <= t.attempts < limit && !t.permanent
  }

  /** Only the to-do list changes, and it is what is left when the claimed seconds are not. */
  ghost predicate LessToDo(range: Range, claimed: seq<Range>, s: Relay, t: Relay) {
    if s.eose then t == s else t == s.(pending := t.pending) && Remaining(range, t.pending, s.covered, claimed)
  }

  method ClaimRelays(range: Range, ghost covered: seq<Range>, ghost claims: seq<Range>, ghost more: seq<Range>,
      claimed: seq<Range>, was: map<int, Relay>)
    returns (relays: map<int, Relay>)
    requires forall r :: r in was ==> RelayOk(range, covered, claims, was[r])
    requires Subset(covered, more) && Subset(claims, claimed) && Subset(claimed, more)
    ensures relays.Keys == was.Keys
    ensures forall r :: r in relays ==> RelayOk(range, more, claimed, relays[r]) && GetsOn(was[r], relays[r])
    ensures forall r :: r in relays ==> LessToDo(range, claimed, was[r], relays[r])
  {
    relays := was;
    var todo := relays.Keys;
    while todo != {}
      invariant todo <= relays.Keys && relays.Keys == was.Keys
      invariant forall r :: r in todo ==> relays[r] == was[r]
      invariant forall r ::
        r in relays && r !in todo ==> RelayOk(range, more, claimed, relays[r]) && GetsOn(was[r], relays[r])
      invariant forall r :: r in relays && r !in todo ==> LessToDo(range, claimed, was[r], relays[r])
      decreases todo
    {
      var r := Totals.Pick(todo);
      todo := todo - {r};
      var s := relays[r];
      if s.eose {
      } else {
        var pending := RemainingOf(range, s.covered, claimed);
        relays := relays[r := s.(pending := pending)];
        RemainingOk(range, covered, claims, s, relays[r], more, claimed);
      }
    }
  }

  predicate Ended(entries: seq<Entry>, r: int) {
    EntryFor(entries, r).Some? && EntryFor(entries, r).value.eose
  }

  /** A range that some relay read to the end needs no seeder for lack of coverage. */
  lemma ThroughMeansCovered(range: Range, covered: seq<Range>, claimed: seq<Range>, s: Relay, x: int)
    requires RelayOk(range, covered, claimed, s) && !Live(s) && !s.dead
    requires Contains(range, x) && Subset(claimed, covered)
    ensures Covers(covered, x)
  {
    if !s.eose {
      assert s.pending == [];
      assert Covers(s.pending, x) || Covers(s.covered, x) || Covers(claimed, x);
    }
  }
}
