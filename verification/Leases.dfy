/** The queue object: each call is one transaction on the database, and leased records are
    settled through handles. A ledger records which write and which lease is which. */
module Leases {
  import opened Positions
  import opened Coalescing
  import opened Capacity
  import opened IdbQueue

  /** `granted` maps every lease token ever given out to the write it leased; `acked` maps
      every acknowledged write to the token that acknowledged it. */
  datatype Ledger = Ledger(nextToken: nat, nextSerial: nat, granted: map<nat, nat>, acked: map<nat, nat>)

  /** The state a reservation handle closes over. */
  datatype Handle = Handle(position: int, leaseMs: int, coalescing: bool,
                           settled: bool, completedAction: Action, completedResult: bool) {
    predicate AckSucceeded() { settled && completedAction.Ack? && completedResult }
  }

  ghost predicate HasToken(records: map<int, Record>, token: nat) {
    exists k :: k in records && records[k].lease.Some? && records[k].lease.value.token == token
  }

  ghost predicate HasSerial(records: map<int, Record>, serial: nat) {
    exists k :: k in records && records[k].serial == serial
  }

  /** Stored writes are distinct and unacknowledged, and each lease is on the write it was
      granted for. */
  ghost predicate LeasesOk(records: map<int, Record>, ledger: Ledger) {
    && (forall k :: k in records ==> records[k].serial < ledger.nextSerial && records[k].serial !in ledger.acked)
    && (forall k, l :: k in records && l in records && k != l ==> records[k].serial != records[l].serial)
    && (forall k :: k in records && records[k].lease.Some? ==>
          records[k].lease.value.token in ledger.granted
          && ledger.granted[records[k].lease.value.token] == records[k].serial)
    && (forall t :: t in ledger.granted ==> t < ledger.nextToken && ledger.granted[t] < ledger.nextSerial)
    && (forall s :: s in ledger.acked ==> ledger.acked[s] in ledger.granted && ledger.granted[ledger.acked[s]] == s)
  }

  /** What any stretch of a run keeps: the ledger only grows, and no token or write that
      has gone from the store ever comes back to it. */
  ghost predicate Step(a: map<int, Record>, la: Ledger, b: map<int, Record>, lb: Ledger) {
    && la.nextToken <= lb.nextToken && la.nextSerial <= lb.nextSerial
    && (forall t :: t in la.granted ==> t in lb.granted && lb.granted[t] == la.granted[t])
    && (forall s :: s in la.acked ==> s in lb.acked && lb.acked[s] == la.acked[s])
    && (forall t: nat :: t < la.nextToken && HasToken(b, t) ==> HasToken(a, t))
    && (forall s: nat :: s < la.nextSerial && HasSerial(b, s) ==> HasSerial(a, s))
  }

  lemma StepTransitive(a: map<int, Record>, la: Ledger, b: map<int, Record>, lb: Ledger, c: map<int, Record>,
      lc: Ledger)
    requires Step(a, la, b, lb) && Step(b, lb, c, lc)
    ensures Step(a, la, c, lc)
  {
  }

  /** A token that no record carries any more is refused for good, whatever happens to the
      positions: its record was acknowledged, replaced or leased to somebody else. */
  lemma StaleTokenRefused(a: map<int, Record>, la: Ledger, b: map<int, Record>, lb: Ledger, token: nat,
      position: int, now: int)
    requires Step(a, la, b, lb) && token < la.nextToken && !HasToken(a, token)
    ensures !Holds(b, position, token, now)
  {
  }

  /** An acknowledged write is never stored, and so never handed out, again. */
  lemma AckedNeverReturns(a: map<int, Record>, la: Ledger, b: map<int, Record>, lb: Ledger, serial: nat)
    requires LeasesOk(b, lb) && Step(a, la, b, lb) && serial in la.acked
    ensures serial in lb.acked && !HasSerial(b, serial)
  {
  }

  /** Every record of `b` is a record of `a`, possibly moved, or the freshly written one. */
  ghost predicate Comes(a: map<int, Record>, b: map<int, Record>, source: map<int, int>, added: Record) {
    && (forall k :: k in b ==> if k in source then source[k] in a && b[k] == a[source[k]] else b[k] == added)
    && (forall k, l :: k in source && l in source && k != l ==> source[k] != source[l])
    && (forall k, l :: k in b && l in b && k !in source && l !in source ==> k == l)
  }

  /** Moving records about, dropping some and writing one new one keeps the leases right. */
  lemma ComesStep(a: map<int, Record>, ledger: Ledger, b: map<int, Record>, source: map<int, int>, added: Record)
    requires LeasesOk(a, ledger) && Comes(a, b, source, added)
    requires added.serial == ledger.nextSerial && added.lease.None?
    ensures var next := ledger.(nextSerial := ledger.nextSerial + 1);
      LeasesOk(b, next) && Step(a, ledger, b, next)
  {
    var next := ledger.(nextSerial := ledger.nextSerial + 1);
    forall k | k in b
      ensures b[k].serial < next.nextSerial && b[k].serial !in ledger.acked
      ensures b[k].lease.Some? ==> b[k].lease.value.token in ledger.granted
      ensures b[k].lease.Some? ==> ledger.granted[b[k].lease.value.token] == b[k].serial
      ensures k in source ==> b[k].serial < ledger.nextSerial
    {
      if k in source {
        var q := source[k];
        assert q in a && a[q] == b[k];
      }
    }
    forall k, l | k in b && l in b && k != l ensures b[k].serial != b[l].serial {
      if k in source && l in source {
        var q, m := source[k], source[l];
        assert b[k] == a[q] && b[l] == a[m] && q != m;
      }
    }
    forall t: nat | HasToken(b, t) ensures HasToken(a, t) {
      var k :| k in b && b[k].lease.Some? && b[k].lease.value.token == t;
      var q := source[k];
      assert q in a && a[q] == b[k];
    }
    forall s: nat | s < ledger.nextSerial && HasSerial(b, s) ensures HasSerial(a, s) {
      var k :| k in b && b[k].serial == s;
      var q := source[k];
      assert q in a && a[q] == b[k];
    }
  }

  /** Replacing the lease of one record by the next token, by a later expiry or by none. */
  lemma ReleaseStep(a: map<int, Record>, ledger: Ledger, p: int, lease: Option<Lease>)
    requires LeasesOk(a, ledger) && p in a
    requires lease.Some? ==> a[p].lease.Some? && lease.value.token == a[p].lease.value.token
    ensures var b := a[p := a[p].(lease := lease)];
      LeasesOk(b, ledger) && Step(a, ledger, b, ledger)
  {
  }

  /** The first free record, at `p`, is now leased under the handle's token for `leaseMs` from
      now on, and nothing else changed. */
  ghost predicate Granted(a: map<int, Record>, b: map<int, Record>, p: int, handle: (nat, Item), leaseMs: int,
      now: int) {
    && p in a && !Active(a[p], now) && (forall k :: k in a && k < p ==> Active(a[k], now))
    && handle.1 == a[p].item && b == a[p := a[p].(lease := Some(Lease(handle.0, now + leaseMs)))]
  }

  /** A grant lasts exactly as long as it says: until then its token holds the record, which
      nobody else is given, and from then on the record is free. */
  lemma GrantLasts(a: map<int, Record>, b: map<int, Record>, p: int, handle: (nat, Item), leaseMs: int, now: int,
      t: int)
    requires Granted(a, b, p, handle, leaseMs, now)
    ensures Holds(b, p, handle.0, t) <==> t < now + leaseMs
    ensures forall c: map<int, Record>, q, other, ms :: Granted(b, c, q, other, ms, t) && t < now + leaseMs ==> q != p
    ensures t >= now + leaseMs ==> !Active(b[p], t)
  {
  }

  /** Two grants at one moment go from the lowest position up. */
  lemma GrantsAscend(a: map<int, Record>, b: map<int, Record>, c: map<int, Record>, p: int, q: int,
      first: (nat, Item), second: (nat, Item), leaseMs: int, ms: int, now: int)
    requires leaseMs > 0 && Granted(a, b, p, first, leaseMs, now) && Granted(b, c, q, second, ms, now)
    ensures p < q && forall k :: k in a && p < k < q ==> Active(a[k], now)
  {
    forall k | k in a && p < k < q ensures Active(a[k], now) { assert k in b && b[k] == a[k]; }
  }

  /** Dropping records, with or without storing a new one at `at`. */
  lemma AddedStep(a: map<int, Record>, ledger: Ledger, b: map<int, Record>, at: int, record: Record)
    requires LeasesOk(a, ledger) && Added(a, b, at, record)
    requires record.serial == ledger.nextSerial && record.lease.None?
    ensures var next := ledger.(nextSerial := ledger.nextSerial + 1);
      LeasesOk(b, next) && Step(a, ledger, b, next)
  {
    ComesStep(a, ledger, b, map k | k in b && k != at :: k, record);
  }

  lemma SubsetStep(a: map<int, Record>, ledger: Ledger, b: map<int, Record>)
    requires LeasesOk(a, ledger) && Subset(b, a)
    ensures LeasesOk(b, ledger) && Step(a, ledger, b, ledger)
  {
  }

  lemma InsertedStep(all: map<int, Record>, ledger: Ledger, a: map<int, Record>, b: map<int, Record>,
                     slot: int, record: Record)
    requires LeasesOk(all, ledger) && Subset(a, all) && Inserted(a, b, slot, record)
    requires record.serial == ledger.nextSerial && record.lease.None?
    ensures var next := ledger.(nextSerial := ledger.nextSerial + 1);
      LeasesOk(b, next) && Step(all, ledger, b, next)
  {
    var source := map k | k in b && k != slot :: if k < slot then k else k - 1;
    forall k | k in b
      ensures if k in source then source[k] in all && b[k] == all[source[k]] else b[k] == record
    {
      assert At(b, k) == InsertedAt(a, slot, record, k);
    }
    ComesStep(all, ledger, b, source, record);
  }

  lemma ClosedStep(a: map<int, Record>, ledger: Ledger, b: map<int, Record>, slot: int, spare: Record)
    requires LeasesOk(a, ledger) && Closed(a, b, slot)
    requires spare.serial == ledger.nextSerial && spare.lease.None?
    ensures var next := ledger.(nextSerial := ledger.nextSerial + 1);
      LeasesOk(b, next) && Step(a, ledger, b, next)
  {
    var source := map k | k in b :: if k < slot then k else k + 1;
    forall k | k in b ensures source[k] in a && b[k] == a[source[k]] {
      assert At(b, k) == ClosedAt(a, slot, k);
    }
    ComesStep(a, ledger, b, source, spare);
  }

  /** The transaction of reserve: the first free record, under the next token. */
  method GrantFirst(db: Db, ledger: Ledger, leaseMs: int, now: int)
    returns (next: Db, grown: Ledger, position: Option<int>)
    requires Accounted(db) && LeasesOk(db.records, ledger) && leaseMs > 0
    ensures Accounted(next) && LeasesOk(next.records, grown) && Step(db.records, ledger, next.records, grown)
    ensures next.used == db.used
    ensures position.None? ==>
      next == db && grown == ledger && forall k :: k in db.records ==> Active(db.records[k], now)
    ensures position.Some? ==> position.value in db.records && ledger.nextToken in grown.granted
    ensures position.Some? ==>
      Granted(db.records, next.records, position.value, (ledger.nextToken, db.records[position.value].item), leaseMs,
        now)
    ensures Ordered(db.records) ==> Ordered(next.records)
  {
    var token := ledger.nextToken;
    next, position := ReserveFirst(db, token, leaseMs, now);
    grown := ledger;
    if position.Some? {
      var p := position.value;
      grown := ledger.(nextToken := token + 1, granted := ledger.granted[token := db.records[p].serial]);
    }
  }

  /** The transaction of a handle, and the acknowledgement it enters in the ledger. */
  method SettleRecord(db: Db, ledger: Ledger, h: Handle, token: nat, action: Action, now: int)
    returns (next: Db, grown: Ledger, ok: bool)
    requires Accounted(db) && LeasesOk(db.records, ledger)
    ensures Accounted(next) && LeasesOk(next.records, grown) && Step(db.records, ledger, next.records, grown)
    ensures next.used <= db.used && grown.nextToken == ledger.nextToken && grown.granted == ledger.granted
    ensures ok <==> Holds(db.records, h.position, token, now)
    ensures !ok ==> next == db && grown == ledger
    ensures ok && action.Ack? ==> token in ledger.granted && ledger.granted[token] !in ledger.acked
    ensures ok && action.Ack? ==> grown.acked == ledger.acked[ledger.granted[token] := token]
    ensures ok && !action.Ack? ==> grown == ledger
    ensures ok ==> Acted(db.records, next.records, h.position, token, action, now, h.leaseMs, h.coalescing)
    ensures h.coalescing && h.leaseMs > 0 && Ordered(db.records) ==> Ordered(next.records)
  {
    next, ok := Settle(db, h.position, token, action, now, h.leaseMs, h.coalescing);
    grown := ledger;
    if ok {
      if next.records == db.records - {h.position} {
      } else {
        var lease := if action.Renew? then Some(Lease(token, now + h.leaseMs)) else None;
        ReleaseStep(db.records, ledger, h.position, lease);
      }
      if action.Ack? {
        grown := ledger.(acked := ledger.acked[db.records[h.position].serial := token]);
      }
    }
  }

  ghost predicate AckedIn(ledger: Ledger, token: nat) {
    token in ledger.granted && ledger.granted[token] in ledger.acked && ledger.acked[ledger.granted[token]] == token
  }

  /** Every handle has its lease in the ledger, and every acknowledgement that succeeded. */
  ghost predicate HandlesOk(handles: map<nat, Handle>, ledger: Ledger) {
    && (forall t :: t in handles ==> t in ledger.granted)
    && (forall t :: t in handles && handles[t].AckSucceeded() ==> AckedIn(ledger, t))
  }

  /** A handle remembers its first answer, except a renewal that succeeded. */
  function Remembered(h: Handle, action: Action, result: bool): Handle {
    if h.settled || (action.Renew? && result) then h
    else h.(settled := true, completedAction := action, completedResult := result)
  }

  lemma HandleSettles(handles: map<nat, Handle>, ledger: Ledger, token: nat, h: Handle)
    requires HandlesOk(handles, ledger) && token in handles && (h.AckSucceeded() ==> AckedIn(ledger, token))
    ensures HandlesOk(handles[token := h], ledger)
  {
  }

  lemma HandlesStay(handles: map<nat, Handle>, a: map<int, Record>, la: Ledger, b: map<int, Record>, lb: Ledger)
    requires HandlesOk(handles, la) && Step(a, la, b, lb)
    ensures HandlesOk(handles, lb)
  {
  }

  /** The queue. A call that fails leaves everything as it was: its transaction aborts. */
  class Queue {
    const config: Config
    var db: Db
    var ledger: Ledger
    var handles: map<nat, Handle>

    ghost predicate Valid()
      reads this
    {
      && Accounted(db) && LeasesOk(db.records, ledger) && HandlesOk(handles, ledger)
      && (db.head == db.tail ==> db.head == 0)
    }

    /** The write leased as `token` has been acknowledged by that very lease. */
    ghost predicate AckedBy(token: nat)
      reads this
    {
      AckedIn(ledger, token)
    }

    /** At most one handle's acknowledgement succeeds per stored write. */
    lemma OneAckPerWrite(t: nat, u: nat)
      requires Valid() && t in handles && u in handles && handles[t].AckSucceeded() && handles[u].AckSucceeded()
      requires ledger.granted[t] == ledger.granted[u]
      ensures t == u
    {
    }

    constructor (config: Config)
      ensures Valid() && this.config == config && db == Db(0, 0, 0, map[])
    {
      this.config := config;
      db, ledger, handles := Db(0, 0, 0, map[]), Ledger(0, 0, map[], map[]), map[];
    }

    /** writeState drops the record of an empty queue, so positions start over. */
    function Committed(next: Db): Db {
      if next.head >= next.tail then Db(0, 0, 0, next.records) else next
    }

    lemma CommittedSame(next: Db)
      requires Accounted(next)
      ensures Accounted(Committed(next)) && Rows(Committed(next)) == Rows(next)
      ensures Committed(next).used == next.used && Committed(next).records == next.records
    {
    }

    /** The end of a transaction that succeeds. */
    method Commit(next: Db, grown: Ledger)
      requires Valid() && Accounted(next) && LeasesOk(next.records, grown)
      requires Step(db.records, ledger, next.records, grown)
      modifies this`db, this`ledger
      ensures Valid() && ledger == grown && db == Committed(next)
      ensures db.records == next.records && db.used == next.used && Rows(db) == Rows(next)
    {
      HandlesStay(handles, db.records, ledger, next.records, grown);
      CommittedSame(next);
      db, ledger := Committed(next), grown;
    }

    /** The ledger once another write has been stored. */
    function Written(): Ledger
      reads this
    {
      ledger.(nextSerial := ledger.nextSerial + 1)
    }

    /** push (`atTail`) and unshift. */
    method Add(item: Item, atTail: bool) returns (r: Result<int, Error>)
      requires Valid()
      modifies this`db, this`ledger
      ensures Valid() && Step(old(db.records), old(ledger), db.records, ledger)
      ensures r.Err? <==> config.CannotAdd(old(db).used, item.bytes)
      ensures r.Err? ==> db == old(db)
      ensures r.Ok? ==> config.Fits(db.used)
      ensures r.Ok? ==> r.value == db.tail - db.head >= |Rows(db)|
      ensures r.Ok? && (forall k :: db.head <= k < db.tail ==> k in db.records) ==> r.value == |Rows(db)|
      ensures r.Ok? && !config.Evicts() ==> r.value == old(db).tail - old(db).head + 1
      ensures r.Ok? ==> exists n ::
        Minimal(config, Rows(old(db)), n, config.EvictsHead(atTail), item.bytes)
        && var kept := Drop(Rows(old(db)), n, config.EvictsHead(atTail));
           var added := Record(old(ledger).nextSerial, item, None);
           Rows(db) == if atTail then kept + [added] else [added] + kept
    {
      var record := Record(ledger.nextSerial, item, None);
      ghost var n, at;
      var next;
      next, n, at := AddAtEnd(config, db, record, atTail);
      if next.Err? { return Err(next.error); }
      AddedStep(db.records, ledger, next.value.records, at, record);
      Commit(next.value, Written());
      SpanCount(db.records, db.head, db.tail);
      r := Ok(db.tail - db.head);
    }

    /** shift (`atHead`) and pop. */
    method Take(atHead: bool) returns (taken: Option<Item>)
      requires Valid()
      modifies this`db, this`ledger
      ensures Valid() && Step(old(db.records), old(ledger), db.records, ledger) && ledger == old(ledger)
      ensures db.used <= old(db).used
      ensures Rows(old(db)) == [] ==> taken.None? && Rows(db) == []
      ensures Rows(old(db)) != [] ==> Rows(db) == Drop(Rows(old(db)), 1, atHead)
      ensures Rows(old(db)) != [] ==> taken == Some(Rows(old(db))[if atHead then 0 else |Rows(old(db))| - 1].item)
    {
      var next, record := TakeFromEnd(db, atHead);
      SubsetStep(db.records, ledger, next.records);
      Commit(next, ledger);
      taken := if record.Some? then Some(record.value.item) else None;
    }

    /** setAt: replaces a record, and with it any lease on it. */
    method SetAt(index: int, item: Item) returns (r: Result<int, Error>)
      requires Valid()
      modifies this`db, this`ledger
      ensures Valid() && Step(old(db.records), old(ledger), db.records, ledger)
      ensures r.Err? ==> db == old(db)
      ensures r.Err? <==>
        !(0 <= index < old(db).tail - old(db).head)
        || config.CannotPut(old(db).used, SizeAt(old(db).records, old(db).head + index), item.bytes)
      ensures r.Ok? ==> r.value == index && (config.Fits(old(db).used) ==> config.Fits(db.used))
      ensures r.Ok? ==>
        Added(old(db).records, db.records, old(db).head + index, Record(old(ledger).nextSerial, item, None))
      ensures r.Ok? ==> Replaced(config, old(db).records, db.records, db.used, old(db).head + index,
        Record(old(ledger).nextSerial, item, None), config.EvictsHead(2 * index > old(db).tail - old(db).head))
    {
      var length := db.tail - db.head;
      if !(0 <= index < length) { return Err(IndexOutOfRange); }
      var record := Record(ledger.nextSerial, item, None);
      var next := PutItem(config, db, db.head + index, record, config.EvictsHead(2 * index > length));
      if next.Err? { return Err(next.error); }
      AddedStep(db.records, ledger, next.value.records, db.head + index, record);
      Commit(next.value, Written());
      r := Ok(index);
    }

    method InsertAt(index: int, item: Item) returns (r: Result<int, Error>, ghost left: Db, ghost n: nat)
      requires Valid()
      modifies this`db, this`ledger
      ensures Valid() && Step(old(db.records), old(ledger), db.records, ledger)
      ensures r.Err? <==> !(0 <= index <= old(db).tail - old(db).head) || config.CannotAdd(old(db).used, item.bytes)
      ensures r.Err? ==> db == old(db)
      ensures r.Ok? ==> config.Fits(db.used)
      ensures r.Ok? ==>
        InsertedBy(config, old(db), index, Record(old(ledger).nextSerial, item, None), left, n, r.value, db)
    {
      var record := Record(ledger.nextSerial, item, None);
      var next, placed;
      next, placed, left, n := InsertAtPosition(config, db, index, record);
      if next.Err? { return Err(next.error), left, n; }
      InsertedStep(db.records, ledger, left.records, next.value.records, left.head + placed, record);
      Commit(next.value, Written());
      r := Ok(placed);
    }

    method RemoveAt(index: int) returns (r: Result<Option<Item>, Error>)
      requires Valid()
      modifies this`db, this`ledger
      ensures Valid() && Step(old(db.records), old(ledger), db.records, ledger)
      ensures r.Err? ==> db == old(db)
      ensures r.Ok? <==> 0 <= index < old(db).tail - old(db).head
      ensures db.used <= old(db).used
      ensures r.Ok? ==> var slot := old(db).head + index;
        && Rows(db) == Span(old(db).records, old(db).head, slot) + Span(old(db).records, slot + 1, old(db).tail)
        && r.value == if slot in old(db).records then Some(old(db).records[slot].item) else None
    {
      var next := RemoveAtPosition(db, index);
      if next.Err? { return Err(next.error); }
      ClosedStep(db.records, ledger, next.value.0.records, db.head + index,
        Record(ledger.nextSerial, Item("", Order(None, 0, 0, 0), "", 1), None));
      Commit(next.value.0, Written());
      r := Ok(if next.value.1.Some? then Some(next.value.1.value.item) else None);
    }

    method PutBy(item: Item, existingOnly: bool)
      returns (r: Result<bool, Error>, ghost done: Result<Option<Db>, Error>, ghost at: int)
      requires Valid()
      modifies this`db, this`ledger
      ensures Valid() && Step(old(db.records), old(ledger), db.records, ledger)
      ensures PutDone(config, old(db), Record(old(ledger).nextSerial, item, None), existingOnly, done, at)
      ensures if done.Err? then r == Err(done.error) && db == old(db)
        else r == Ok(done.value.Some?) && db == if done.value.Some? then Committed(done.value.value) else old(db)
      ensures Unique(old(db).records) ==> Unique(db.records)
      ensures config.Fits(old(db).used) ==> config.Fits(db.used)
    {
      var record := Record(ledger.nextSerial, item, None);
      var next;
      next, at := IdbQueue.PutBy(config, db, record, existingOnly);
      done := next;
      if next.Err? { return Err(next.error), done, at; }
      if next.value.None? { return Ok(false), done, at; }
      if Unique(db.records) { UniqueAdded(db.records, next.value.value.records, at, record); }
      AddedStep(db.records, ledger, next.value.value.records, at, record);
      Commit(next.value.value, Written());
      r := Ok(true);
    }

    method CoalesceBy(item: Item, comparing: bool, keepOldest: bool, now: int)
      returns (r: Result<Outcome, Error>, ghost plan: Plan)
      requires Valid()
      modifies this`db, this`ledger
      ensures Valid() && Step(old(db.records), old(ledger), db.records, ledger)
      ensures Planned(config, old(db), Record(old(ledger).nextSerial, item, None), comparing, keepOldest, now, plan)
      ensures if plan.done.Err? then r == Err(plan.done.error) && db == old(db)
        else r == Ok(plan.outcome) && db == (if plan.outcome.Ignored? then old(db) else Committed(plan.done.value))
      ensures config.Fits(old(db).used) ==> config.Fits(db.used)
    {
      var record := Record(ledger.nextSerial, item, None);
      var next, outcome;
      ghost var positions, cleared;
      next, outcome, positions, cleared := Coalesce(config, db, record, comparing, keepOldest, now);
      plan := Plan(outcome, next, positions, cleared);
      if next.Err? { return Err(next.error), plan; }
      if outcome.Ignored? { return Ok(outcome), plan; }
      AddedStep(db.records, ledger, next.value.records, outcome.position, record);
      Commit(next.value, Written());
      r := Ok(outcome);
    }

    /** reserve: hands out the first free record under a token never used before. */
    method Reserve(leaseMs: int, now: int, coalescing: bool) returns (handle: Option<(nat, Item)>)
      requires Valid() && leaseMs > 0
      modifies this
      ensures Valid() && Step(old(db.records), old(ledger), db.records, ledger)
      ensures db.used == old(db).used
      ensures handle.None? ==> (forall k :: k in db.records ==> Active(db.records[k], now)) && db == old(db)
      ensures handle.Some? ==> handle.value.0 == old(ledger).nextToken && handle.value.0 in handles
      ensures handle.Some? ==>
        Granted(old(db).records, db.records, handles[handle.value.0].position, handle.value, leaseMs, now)
      ensures handle.None? ==> handles == old(handles)
      ensures handle.Some? ==> handles == old(handles)[handle.value.0 := handles[handle.value.0]]
      ensures handle.Some? ==> var h := handles[handle.value.0];
        h == Handle(h.position, leaseMs, coalescing, false, Ack, false)
      ensures old(handles.Keys) <= handles.Keys
      ensures Ordered(old(db).records) ==> Ordered(db.records)
    {
      var token := ledger.nextToken;
      var next, grown, position := GrantFirst(db, ledger, leaseMs, now);
      if position.None? { return None; }
      handle := Some((token, db.records[position.value].item));
      Commit(next, grown);
      handles := handles[token := Handle(position.value, leaseMs, coalescing, false, Ack, false)];
    }

    /** ack, nack and renew of a handle. A settled handle repeats its answer; an unsettled
        one acts exactly when its own lease still holds its record. */
    method Update(token: nat, action: Action, now: int) returns (result: bool)
      requires Valid() && token in handles
      modifies this
      ensures Valid() && Step(old(db.records), old(ledger), db.records, ledger)
      ensures db.used <= old(db).used
      ensures handles == old(handles)[token := Remembered(old(handles[token]), action, result)]
      ensures !old(handles[token].settled) ==>
        (result <==> Holds(old(db).records, old(handles[token].position), token, now))
      ensures old(handles[token].settled) ==>
        result == (action == old(handles[token].completedAction) && old(handles[token].completedResult))
      ensures !result || old(handles[token].settled) ==> db == old(db)
      ensures result && !old(handles[token].settled) ==> var h := old(handles[token]);
        Acted(old(db).records, db.records, h.position, token, action, now, h.leaseMs, h.coalescing)
      ensures result && action.Ack? ==> AckedBy(token)
      ensures result && action.Ack? && !old(handles[token].settled) ==> ledger.granted[token] !in old(ledger).acked
      ensures old(handles[token].coalescing) && old(handles[token].leaseMs) > 0 && Ordered(old(db).records) ==>
        Ordered(db.records)
    {
      var h := handles[token];
      if h.settled { return action == h.completedAction && h.completedResult; }
      var next, grown, ok := SettleRecord(db, ledger, h, token, action, now);
      result := ok;
      if ok { Commit(next, grown); }
      HandleSettles(handles, ledger, token, Remembered(h, action, ok));
      if !action.Renew? || !ok {
        handles := handles[token := h.(settled := true, completedAction := action, completedResult := ok)];
      }
      assert handles == old(handles)[token := Remembered(h, action, ok)];
    }

    /** A reservation and the next calls for it: an acknowledgement succeeds exactly before
        the lease ends, and until then nobody else is given the record. */
    method ReserveThenAck(leaseMs: int, now: int, coalescing: bool, later: int) returns (handle: Option<(nat, Item)>,
        acked: bool)
      requires Valid() && leaseMs > 0
      modifies this
      ensures Valid() && (handle.Some? <==> exists k :: k in old(db).records && !Active(old(db).records[k], now))
      ensures acked <==> handle.Some? && later < now + leaseMs
      ensures acked ==> exists p ::
        p in old(db).records && handle.value.1 == old(db).records[p].item && db.records == old(db).records - {p}
    {
      handle := Reserve(leaseMs, now, coalescing);
      if handle.None? { return handle, false; }
      ghost var a, b, p := old(db).records, db.records, handles[handle.value.0].position;
      GrantLasts(a, b, p, handle.value, leaseMs, now, later);
      acked := Update(handle.value.0, Ack, later);
      if acked { assert db.records == a - {p}; }
    }

    /** A second call on a handle: after a call that settled it, nothing happens any more and
        the answer is the first one, or false for another action. */
    method UpdateTwice(token: nat, first: Action, second: Action, now: int, later: int)
      returns (a: bool, b: bool, ghost between: Db)
      requires Valid() && token in handles && !handles[token].settled
      modifies this
      ensures Valid()
      ensures !first.Renew? || !a ==> db == between && (b <==> first == second && a)
      ensures first.Renew? && a ==>
        (b <==> Holds(between.records, old(handles[token].position), token, later))
    {
      a := Update(token, first, now);
      between := db;
      b := Update(token, second, later);
    }

    /** Two reservations: while the first lease lasts the second is for another record, and at
        the same moment for a later one. */
    method ReserveTwice(leaseMs: int, now: int, coalescing: bool, later: int)
      returns (first: Option<(nat, Item)>, second: Option<(nat, Item)>)
      requires Valid() && leaseMs > 0
      modifies this
      ensures Valid() && (first.Some? && second.Some? ==> first.value.0 in handles && second.value.0 in handles)
      ensures first.Some? && second.Some? && later < now + leaseMs ==>
        handles[first.value.0].position != handles[second.value.0].position
      ensures first.Some? && second.Some? && later == now ==>
        handles[first.value.0].position < handles[second.value.0].position
    {
      first, second := None, None;
      first := Reserve(leaseMs, now, coalescing);
      if first.None? { return; }
      ghost var a, b, p := old(db).records, db.records, handles[first.value.0].position;
      GrantLasts(a, b, p, first.value, leaseMs, now, later);
      second := Reserve(leaseMs, later, coalescing);
      if second.Some? && later == now {
        GrantsAscend(a, b, db.records, p, handles[second.value.0].position, first.value, second.value, leaseMs, leaseMs,
          now);
      }
    }

    // ----------------------------------------------------------- whole runs

    /** Any calls by any consumers, interleaved in any order. */
    method Run(script: seq<Call>)
      requires Valid()
      modifies this
      ensures Valid() && Step(old(db.records), old(ledger), db.records, ledger)
      ensures config.Fits(old(db).used) ==> config.Fits(db.used)
    {
      for i := 0 to |script|
        invariant Valid() && Step(old(db.records), old(ledger), db.records, ledger)
        invariant config.Fits(old(db).used) ==> config.Fits(db.used)
      {
        ghost var records, was := db.records, ledger;
        Do(script[i]);
        StepTransitive(old(db.records), old(ledger), records, was, db.records, ledger);
      }
    }

    /** Any one call. */
    method Do(call: Call)
      requires Valid()
      modifies this
      ensures Valid() && Step(old(db.records), old(ledger), db.records, ledger)
      ensures config.Fits(old(db).used) ==> config.Fits(db.used)
    {
      match call {
        case Add(item, atTail) => var r := Add(item, atTail);
        case Take(atHead) => var r := Take(atHead);
        case SetAt(index, item) => var r := SetAt(index, item);
        case InsertAt(index, item) =>
          ghost var left, n;
          var r;
          r, left, n := InsertAt(index, item);
        case RemoveAt(index) => var r := RemoveAt(index);
        case PutBy(item, existingOnly) =>
          ghost var done, at;
          var r;
          r, done, at := PutBy(item, existingOnly);
        case CoalesceBy(item, comparing, keepOldest, now) =>
          ghost var plan;
          var r;
          r, plan := CoalesceBy(item, comparing, keepOldest, now);
        case Reserve(leaseMs, now, coalescing) => if leaseMs > 0 { var r := Reserve(leaseMs, now, coalescing); }
        case Update(token, action, now) => if token in handles { var r := Update(token, action, now); }
      }
    }

    /** Coalescing calls only, as long as each leaves the item alone or finds it in order:
        the order of every key survives all of them, under every eviction policy. The run
        ends at a call that is not so; without eviction that one would break the order,
        unless its item does not fit. */
    method RunCoalescing(script: seq<Call>) returns (calls: nat)
      requires Valid() && Ordered(db.records)
      requires forall t :: t in handles ==> handles[t].coalescing && handles[t].leaseMs > 0
      modifies this
      ensures Valid() && Ordered(db.records) && calls <= |script|
      ensures calls < |script| ==> !Admissible(script[calls])
    {
      calls := 0;
      while calls < |script| && Admissible(script[calls])
        invariant calls <= |script| && Valid() && Ordered(db.records)
        invariant forall t :: t in handles ==> handles[t].coalescing && handles[t].leaseMs > 0
      {
        match script[calls] {
          case CoalesceBy(item, comparing, keepOldest, now) => CoalesceInOrder(item, comparing, keepOldest, now);
          case Reserve(leaseMs, now, coalescing) => var r := Reserve(leaseMs, now, coalescing);
          case Update(token, action, now) => var r := Update(token, action, now);
        }
        calls := calls + 1;
      }
    }

    /** A coalescing call that leaves its item alone or finds it in order. */
    method CoalesceInOrder(item: Item, comparing: bool, keepOldest: bool, now: int)
      requires Valid() && Ordered(db.records)
      requires KeepsOrder(db.records, item, comparing, keepOldest, now)
      modifies this`db, this`ledger
      ensures Valid() && Ordered(db.records) && Step(old(db.records), old(ledger), db.records, ledger)
    {
      ghost var plan, was, record := *, db, Record(ledger.nextSerial, item, None);
      var r;
      r, plan := CoalesceBy(item, comparing, keepOldest, now);
      if plan.done.Ok? { CallKeepsOrderExactly(config, was, record, comparing, keepOldest, now, plan); }
    }

    predicate Admissible(call: Call)
      reads this
    {
      match call
      case CoalesceBy(item, comparing, keepOldest, now) =>
        KeepsOrder(db.records, item, comparing, keepOldest, now)
      case Reserve(leaseMs, now, coalescing) =>
        leaseMs > 0 && coalescing
      case Update(token, action, now) => token in handles
      case _ => false
    }
  }

  datatype Call =
    | Add(item: Item, atTail: bool) | Take(atHead: bool)
    | SetAt(index: int, item: Item) | InsertAt(index: int, item: Item) | RemoveAt(index: int)
    | PutBy(item: Item, existingOnly: bool)
    | CoalesceBy(item: Item, comparing: bool, keepOldest: bool, now: int)
    | Reserve(leaseMs: int, now: int, coalescing: bool) | Update(token: nat, action: Action, now: int)
}
