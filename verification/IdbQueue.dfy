/** The IndexedDB queue: every operation is one transaction over the stored records and
    the queue state, under a byte limit, with leases on records being processed. */
module IdbQueue {
  import opened Positions
  import opened Capacity
  import opened Coalescing

  // ---------------------------------------------------------------- data model

  type Size = n: int | n > 0 witness 1

  /** A queued value: its coalescing key and order, and the bytes it is charged for. */
  datatype Item = Item(key: string, order: Order, content: string, bytes: Size)

  datatype Lease = Lease(token: nat, until: int)

  /** A stored record. `serial` numbers the write that stored it. */
  datatype Record = Record(serial: nat, item: Item, lease: Option<Lease>)

  /** The object store by position, and the state record. */
  datatype Db = Db(head: int, tail: int, used: int, records: map<int, Record>)

  datatype Error = ItemTooLarge | CapacityExceeded | IndexOutOfRange

  function Rows(db: Db): seq<Record> { Span(db.records, db.head, db.tail) }

  function BytesOf(rows: seq<Record>): nat {
    if rows == [] then 0 else rows[0].item.bytes + BytesOf(rows[1..])
  }

  function Sizes(records: map<int, Record>): map<int, nat> {
    map k | k in records :: records[k].item.bytes
  }

  /** Every record lies between head and tail, and `used` is the sum of their sizes. */
  predicate Accounted(db: Db) {
    && db.head <= db.tail && Within(db.records, db.head, db.tail)
    && db.used == Sum(Sizes(db.records), db.head, db.tail)
  }

  // ---------------------------------------------------------------- lemmas

  lemma {:induction false} RowsBytes(records: map<int, Record>, lo: int, hi: int)
    ensures Sum(Sizes(records), lo, hi) == BytesOf(Span(records, lo, hi))
    decreases hi - lo
  {
    if lo < hi {
      RowsBytes(records, lo + 1, hi);
      if lo in records {
        assert Span(records, lo, hi)[1..] == Span(records, lo + 1, hi);
      } else {
        assert Span(records, lo, hi) == Span(records, lo + 1, hi);
      }
    }
  }

  /** Bounds that hold every record are interchangeable, for rows and bytes alike. */
  lemma Rebound(records: map<int, Record>, a: int, b: int, c: int, d: int)
    requires Within(records, a, b) && Within(records, c, d)
    ensures Span(records, a, b) == Span(records, c, d)
    ensures Sum(Sizes(records), a, b) == Sum(Sizes(records), c, d)
  {
    SpanBounds(records, a, b, c, d);
    SumBounds(Sizes(records), a, b, c, d);
  }

  /** Storing or replacing one record moves the total by the difference in size. */
  lemma StoredBytes(records: map<int, Record>, at: int, record: Record, lo: int, hi: int)
    requires lo <= at < hi
    ensures Sum(Sizes(records[at := record]), lo, hi)
         == Sum(Sizes(records), lo, hi) - SizeAt(records, at) + record.item.bytes
  {
    SumWithout(Sizes(records), at, lo, hi);
    SumWithout(Sizes(records[at := record]), at, lo, hi);
    assert Sizes(records[at := record]) - {at} == Sizes(records) - {at};
  }

  lemma DeletedBytes(records: map<int, Record>, at: int, lo: int, hi: int)
    requires lo <= at < hi
    ensures Sum(Sizes(records - {at}), lo, hi) == Sum(Sizes(records), lo, hi) - SizeAt(records, at)
  {
    SumWithout(Sizes(records), at, lo, hi);
    assert Sizes(records - {at}) == Sizes(records) - {at};
  }

  function SizeAt(records: map<int, Record>, at: int): nat {
    if at in records then records[at].item.bytes else 0
  }

  // ----------------------------------------------------------- finding the ends

  predicate Outermost(records: map<int, Record>, at: int, atHead: bool, excluded: seq<int>) {
    forall k :: k in records && k !in excluded ==> if atHead then at <= k else k <= at
  }

  /** A cursor from one end: the first stored record that is not excluded. */
  method StoredAtEnd(db: Db, atHead: bool, excluded: seq<int>) returns (found: Option<int>)
    requires db.head <= db.tail && Within(db.records, db.head, db.tail)
    ensures found.None? ==> forall k :: k in db.records ==> k in excluded
    ensures found.Some? ==> found.value in db.records && found.value !in excluded
    ensures found.Some? ==> Outermost(db.records, found.value, atHead, excluded)
  {
    var k := 0;
    while k < db.tail - db.head
      invariant 0 <= k <= db.tail - db.head
      invariant forall q :: q in db.records && q !in excluded ==> db.head + (if atHead then k else 0) <= q
      invariant forall q :: q in db.records && q !in excluded ==> q < db.tail - (if atHead then 0 else k)
    {
      var position := if atHead then db.head + k else db.tail - 1 - k;
      if position in db.records && position !in excluded { return Some(position); }
      k := k + 1;
    }
    found := None;
  }

  /** The bounds rest on stored records, or the queue is empty and starts over. */
  predicate Tight(db: Db) {
    if db.records == map[] then db == Db(0, 0, 0, map[])
    else db.head < db.tail && db.head in db.records && db.tail - 1 in db.records
  }

  /** trimBounds: the tightest bounds around the stored records and the kept slots. */
  method TrimBounds(db: Db, kept: seq<int>) returns (trimmed: Db)
    requires Accounted(db)
    requires forall p :: p in kept ==> db.head <= p < db.tail
    ensures Accounted(trimmed) && trimmed.records == db.records && Rows(trimmed) == Rows(db) && trimmed.used == db.used
    ensures forall p :: p in kept ==> trimmed.head <= p < trimmed.tail
    ensures trimmed.head < trimmed.tail ==>
      && (trimmed.head in db.records || trimmed.head in kept)
      && (trimmed.tail - 1 in db.records || trimmed.tail - 1 in kept)
    ensures kept == [] ==> Tight(trimmed)
  {
    var first := StoredAtEnd(db, true, []);
    var last := StoredAtEnd(db, false, []);
    var head := if first.Some? then first.value else db.tail;
    var tail := if last.Some? then last.value else db.head - 1;
    for i := 0 to |kept|
      invariant forall p :: p in kept[..i] ==> head <= p <= tail
      invariant first.Some? ==> head <= first.value && last.value <= tail
      invariant head == db.tail || head in db.records || head in kept
      invariant tail == db.head - 1 || tail in db.records || tail in kept
      invariant first.None? && i == 0 ==> head == db.tail
      invariant i > 0 ==> head < db.tail
      invariant head == db.tail <==> tail == db.head - 1
    {
      var p := kept[i];
      assert kept[..i + 1] == kept[..i] + [p];
      head := if p < head then p else head;
      tail := if p > tail then p else tail;
    }
    assert kept[..|kept|] == kept;
    if head == db.tail {
      assert forall k :: k !in db.records;
      assert db.records == map[];
      SumEmpty(Sizes(db.records), db.head, db.tail);
      SpanEmpty(db.records, db.head, db.tail);
      return Db(0, 0, 0, db.records);
    }
    Rebound(db.records, db.head, db.tail, head, tail + 1);
    assert kept == [] ==> first.Some?;
    trimmed := db.(head := head, tail := tail + 1);
  }

  /** evictOne: deletes the outermost record of one end, sparing the kept slots. */
  method EvictOne(db: Db, atHead: bool, kept: seq<int>) returns (next: Db, evicted: bool, ghost at: int)
    requires Accounted(db) && forall p :: p in kept ==> db.head <= p < db.tail
    ensures Accounted(next) && forall p :: p in kept ==> next.head <= p < next.tail
    ensures !evicted ==> next == db && forall k :: k in db.records ==> k in kept
    ensures evicted ==> at in db.records && at !in kept && next.records == db.records - {at}
    ensures evicted ==> next.used == db.used - db.records[at].item.bytes
    ensures evicted ==> Outermost(db.records, at, atHead, kept)
    ensures evicted && kept == [] ==>
      Rows(db) != [] && Rows(next) == if atHead then Rows(db)[1..] else Rows(db)[..|Rows(db)| - 1]
    ensures evicted && kept == [] ==> Tight(next)
  {
    var found := StoredAtEnd(db, atHead, kept);
    if found.None? { return db, false, 0; }
    at := found.value;
    var deleted := db.(records := db.records - {found.value},
      used := if db.used > db.records[found.value].item.bytes then db.used - db.records[found.value].item.bytes else 0);
    DeletedBytes(db.records, found.value, db.head, db.tail);
    if kept == [] { EndRow(db, atHead, found.value); }
    next := TrimBounds(deleted, kept);
    evicted := true;
  }

  /** The outermost record of an end is the first or last row. */
  lemma EndRow(db: Db, atHead: bool, at: int)
    requires db.head <= db.tail && Within(db.records, db.head, db.tail) && at in db.records
    requires Outermost(db.records, at, atHead, [])
    ensures Rows(db) != []
    ensures Rows(db)[if atHead then 0 else |Rows(db)| - 1] == db.records[at]
    ensures Span(db.records - {at}, db.head, db.tail)
         == if atHead then Rows(db)[1..] else Rows(db)[..|Rows(db)| - 1]
  {
    var rest := db.records - {at};
    SpanAt(db.records, db.head, at, db.tail);
    SpanAt(rest, db.head, at, db.tail);
    SpanSame(db.records, rest, db.head, at);
    SpanSame(db.records, rest, at + 1, db.tail);
    if atHead { SpanEmpty(db.records, db.head, at); } else { SpanEmpty(db.records, at + 1, db.tail); }
  }

  // ------------------------------------------------------------------ eviction

  /** What is left of `rows` once `n` have been dropped from one end. */
  function Drop(rows: seq<Record>, n: nat, atHead: bool): seq<Record>
    requires n <= |rows|
  {
    if atHead then rows[n..] else rows[..|rows| - n]
  }

  /** Dropping `n` rows makes room, and dropping fewer would not. */
  ghost predicate Minimal(config: Config, rows: seq<Record>, n: nat, atHead: bool, required: int) {
    && n <= |rows|
    && (config.limit.None? || config.policy.Reject? ==> n == 0)
    && (config.limit.Some? && !config.policy.Reject? ==>
          && (n == |rows| || BytesOf(Drop(rows, n, atHead)) + required <= config.Target(required))
          && (forall m :: 0 <= m < n ==> BytesOf(Drop(rows, m, atHead)) + required > config.Target(required)))
  }

  /** The records of `a` that `b` still holds are unchanged, and it holds no others. */
  ghost predicate Subset(b: map<int, Record>, a: map<int, Record>) {
    forall k :: k in b ==> k in a && b[k] == a[k]
  }

  /** Without the outermost row of one end. */
  function Without(rows: seq<Record>, atHead: bool): seq<Record>
    requires rows != []
  {
    if atHead then rows[1..] else rows[..|rows| - 1]
  }

  /** `n` rows were dropped from one end, each while the rest was over the room available. */
  ghost predicate Evicted(rows: seq<Record>, left: seq<Record>, n: nat, atHead: bool, room: int)
    decreases n
  {
    if n == 0 then left == rows
    else rows != [] && BytesOf(rows) > room && Evicted(Without(rows, atHead), left, n - 1, atHead, room)
  }

  lemma {:induction false} EvictedMore(rows: seq<Record>, was: seq<Record>, left: seq<Record>, n: nat, atHead: bool,
      room: int)
    requires Evicted(rows, was, n, atHead, room) && BytesOf(was) > room
    requires was != [] && left == Without(was, atHead)
    ensures Evicted(rows, left, n + 1, atHead, room)
    decreases n
  {
    if n > 0 { EvictedMore(Without(rows, atHead), was, left, n - 1, atHead, room); }
  }

  /** So it is the first `n` rows of that end that are gone. */
  lemma {:induction false} EvictedDrop(rows: seq<Record>, left: seq<Record>, n: nat, atHead: bool, room: int)
    requires Evicted(rows, left, n, atHead, room)
    ensures n <= |rows| && left == Drop(rows, n, atHead)
    ensures forall m :: 0 <= m < n ==> BytesOf(Drop(rows, m, atHead)) > room
    decreases n
  {
    if n > 0 {
      var rest := Without(rows, atHead);
      EvictedDrop(rest, left, n - 1, atHead, room);
      forall m | 0 <= m < n ensures BytesOf(Drop(rows, m, atHead)) > room {
        if m == 0 { assert Drop(rows, 0, atHead) == rows; }
        else { assert Drop(rows, m, atHead) == Drop(rest, m - 1, atHead); }
      }
      assert Drop(rows, n, atHead) == Drop(rest, n - 1, atHead);
    } else {
      assert Drop(rows, 0, atHead) == rows;
    }
  }

  /** `at` was evicted, and of the evicted records it was the innermost one. */
  ghost predicate LastOut(a: map<int, Record>, b: map<int, Record>, at: int, atHead: bool) {
    at in a && at !in b && forall k :: k in a && k !in b ==> if atHead then k <= at else at <= k
  }

  /** Around the spared slots, `b` is what is left of `a` when records go from one end and
      stop going as soon as the rest is within the room available. */
  ghost predicate Cut(a: map<int, Record>, b: map<int, Record>, used: int, kept: seq<int>, atHead: bool, room: int) {
    && (forall k, q :: k in a && k !in b && q in b && q !in kept ==> if atHead then k < q else q < k)
    && (forall k :: LastOut(a, b, k, atHead) ==> used + a[k].item.bytes > room)
  }

  lemma CutMore(a: map<int, Record>, b: map<int, Record>, used: int, kept: seq<int>, atHead: bool, room: int, at: int)
    requires Subset(b, a) && Cut(a, b, used, kept, atHead, room) && used > room
    requires at in b && at !in kept && Outermost(b, at, atHead, kept)
    ensures Cut(a, b - {at}, used - a[at].item.bytes, kept, atHead, room)
  {
    var next := b - {at};
    forall k | LastOut(a, next, k, atHead) ensures k == at {
      assert at in a && at !in next;
    }
  }

  /** Where the eviction loop stands after `n` evictions. */
  ghost predicate Evicting(db: Db, next: Db, n: nat, kept: seq<int>, atHead: bool, room: int) {
    && Accounted(next) && Subset(next.records, db.records)
    && Cut(db.records, next.records, next.used, kept, atHead, room)
    && (forall p :: p in kept ==> next.head <= p < next.tail)
    && (forall p :: p in kept && p in db.records ==> p in next.records)
    && (kept == [] ==> Evicted(Rows(db), Rows(next), n, atHead, room))
    && (if n == 0 then next == db else db.used > room && db.records != map[])
    && (n > 0 && kept == [] ==> Tight(next))
  }

  lemma EvictingNone(db: Db, kept: seq<int>, atHead: bool, room: int)
    requires Accounted(db) && forall p :: p in kept ==> db.head <= p < db.tail
    ensures Evicting(db, db, 0, kept, atHead, room)
  {
  }

  /** One turn of the eviction loop. */
  method EvictTurn(ghost db: Db, was: Db, ghost n: nat, kept: seq<int>, atHead: bool, ghost room: int)
    returns (next: Db, evicted: bool)
    requires Evicting(db, was, n, kept, atHead, room) && was.used > room
    ensures if evicted then Evicting(db, next, n + 1, kept, atHead, room) && |next.records.Keys| < |was.records.Keys|
      else next == was && forall k :: k in was.records ==> k in kept
  {
    ghost var at;
    RowsBytes(was.records, was.head, was.tail);
    next, evicted, at := EvictOne(was, atHead, kept);
    if evicted {
      CutMore(db.records, was.records, was.used, kept, atHead, room, at);
      if kept == [] { EvictedMore(Rows(db), Rows(was), Rows(next), n, atHead, room); }
      assert next.records.Keys == was.records.Keys - {at};
    }
  }

  /** The eviction loop: one record after another until the target is met or none is left. */
  method EvictWhile(db: Db, required: nat, target: int, atHead: bool, kept: seq<int>)
    returns (next: Db, exhausted: bool, ghost n: nat)
    requires Accounted(db) && forall p :: p in kept ==> db.head <= p < db.tail
    ensures Evicting(db, next, n, kept, atHead, target - required)
    ensures exhausted ==> forall k :: k in next.records ==> k in kept
    ensures !exhausted ==> next.used + required <= target
  {
    n, next, exhausted := 0, db, false;
    ghost var room := target - required;
    EvictingNone(db, kept, atHead, room);
    while next.used + required > target
      invariant Evicting(db, next, n, kept, atHead, room)
      decreases |next.records.Keys|
    {
      var evicted;
      next, evicted := EvictTurn(db, next, n, kept, atHead, room);
      if !evicted {
        exhausted := true;
        break;
      }
      n := n + 1;
    }
  }

  /** A write of `required` bytes needs no eviction. */
  predicate Roomy(config: Config, db: Db, required: int) {
    config.limit.None? || config.policy.Reject? || db.used + required <= config.Target(required) || db.records == map[]
  }

  /** What eviction for a write of `required` bytes leaves, and that it stops in time. */
  ghost predicate MadeRoom(config: Config, a: map<int, Record>, b: map<int, Record>, used: int, required: int,
      atHead: bool, kept: seq<int>) {
    if config.limit.None? || config.policy.Reject? then b == a
    else
      && Cut(a, b, used, kept, atHead, config.Target(required) - required)
      && (used + required <= config.Target(required) || forall k :: k in b ==> k in kept)
  }

  /** evictToFit: refuses what can never fit, otherwise evicts as little as the target asks.
      Outside the reject policy an error leaves nothing that could still be evicted. */
  method EvictToFit(config: Config, db: Db, required: nat, atHead: bool, kept: seq<int>)
    returns (r: Result<Db, Error>, ghost n: nat)
    requires Accounted(db) && |kept| <= 1 && forall p :: p in kept ==> db.head <= p < db.tail
    ensures r.Ok? ==> Accounted(r.value) && config.Fits(r.value.used + required) && Subset(r.value.records, db.records)
    ensures r.Ok? ==>
      forall p :: p in kept ==> r.value.head <= p < r.value.tail && SameAt(db.records, r.value.records, p)
    ensures r.Ok? && kept == [] ==> Minimal(config, Rows(db), n, atHead, required)
    ensures r.Ok? && kept == [] ==> Rows(r.value) == Drop(Rows(db), n, atHead)
    ensures r.Ok? ==> if n == 0 then r.value == db else kept == [] ==> Tight(r.value)
    ensures r.Ok? && (config.limit.None? || config.policy.Reject?) ==> r.value == db
    ensures r.Ok? ==> MadeRoom(config, db.records, r.value.records, r.value.used, required, atHead, kept)
    ensures r.Ok? && kept == [] ==> Roomy(config, r.value, required) && (Roomy(config, db, required) ==> r.value == db)
    ensures r.Err? ==> !config.Fits(
      if config.policy.Reject? then db.used + required
      else required + if kept == [] then 0 else SizeAt(db.records, kept[0]))
  {
    n := 0;
    if config.limit.None? { return Ok(db), 0; }
    var max := config.limit.value;
    if required > max { return Err(ItemTooLarge), 0; }
    if config.policy.Reject? {
      if db.used + required > max { return Err(CapacityExceeded), 0; }
      return Ok(db), 0;
    }
    var target := config.Target(required);
    var next, exhausted;
    next, exhausted, n := EvictWhile(db, required, target, atHead, kept);
    if exhausted { OnlyKept(next, kept); }
    if next.used + required > max { return Err(CapacityExceeded), n; }
    EvictedRight(config, db, next, n, atHead, required, kept);
    r := Ok(next);
  }

  lemma EvictedRight(config: Config, db: Db, next: Db, n: nat, atHead: bool, required: nat, kept: seq<int>)
    requires config.limit.Some? && !config.policy.Reject?
    requires Evicting(db, next, n, kept, atHead, config.Target(required) - required)
    requires next.used + required <= config.Target(required)
      || ((forall k :: k in next.records ==> k in kept) && (kept == [] ==> Rows(next) == []))
    ensures MadeRoom(config, db.records, next.records, next.used, required, atHead, kept)
    ensures forall p :: p in kept ==> SameAt(db.records, next.records, p)
    ensures kept == [] ==> Minimal(config, Rows(db), n, atHead, required) && Rows(next) == Drop(Rows(db), n, atHead)
    ensures kept == [] ==> Roomy(config, next, required) && (Roomy(config, db, required) ==> next == db)
  {
    if kept == [] {
      if next.used + required > config.Target(required) {
        assert forall k :: k !in next.records;
        assert next.records == map[];
      }
      EvictedLeast(config, db, next, n, atHead, required);
    }
  }

  /** Without a spared slot the loop dropped the fewest rows that meet the target. */
  lemma EvictedLeast(config: Config, db: Db, next: Db, n: nat, atHead: bool, required: nat)
    requires config.limit.Some? && !config.policy.Reject?
    requires Evicting(db, next, n, [], atHead, config.Target(required) - required)
    requires next.used + required <= config.Target(required) || Rows(next) == []
    ensures Minimal(config, Rows(db), n, atHead, required) && Rows(next) == Drop(Rows(db), n, atHead)
  {
    EvictedDrop(Rows(db), Rows(next), n, atHead, config.Target(required) - required);
    RowsBytes(next.records, next.head, next.tail);
  }

  predicate SameAt(a: map<int, Record>, b: map<int, Record>, p: int) {
    At(a, p) == At(b, p)
  }

  /** When at most one slot is spared, that slot holds everything left. */
  lemma OnlyKept(db: Db, kept: seq<int>)
    requires Accounted(db) && |kept| <= 1 && forall k :: k in db.records ==> k in kept
    requires forall p :: p in kept ==> db.head <= p < db.tail
    ensures db.used == if kept == [] then 0 else SizeAt(db.records, kept[0])
    ensures kept == [] ==> Rows(db) == []
  {
    if kept == [] {
      SumEmpty(Sizes(db.records), db.head, db.tail);
      SpanEmpty(db.records, db.head, db.tail);
    } else {
      assert kept[0] in kept;
      DeletedBytes(db.records, kept[0], db.head, db.tail);
      SumEmpty(Sizes(db.records - {kept[0]}), db.head, db.tail);
    }
  }

  // -------------------------------------------------------------- transactions

  /** extendBounds around a record stored just outside the bounds, at the tail or before the head. */
  function StoreAtEdge(db: Db, at: int, record: Record): Db {
    Db(if db.head >= db.tail || at < db.head then at else db.head,
       if db.head >= db.tail || at >= db.tail then at + 1 else db.tail,
       db.used + record.item.bytes, db.records[at := record])
  }

  lemma StoredAtEdge(db: Db, at: int, record: Record)
    requires Accounted(db) && (at == db.tail || at == db.head - 1)
    ensures var next := StoreAtEdge(db, at, record);
      Accounted(next) && Rows(next) == if at == db.tail then Rows(db) + [record] else [record] + Rows(db)
  {
    var lo, hi := if at < db.head then at else db.head, if at < db.tail then db.tail else at + 1;
    var next := StoreAtEdge(db, at, record);
    var records := next.records;
    Rebound(db.records, db.head, db.tail, lo, hi);
    StoredBytes(db.records, at, record, lo, hi);
    SpanAt(records, lo, at, hi);
    SpanSame(db.records, records, db.head, db.tail);
    assert Span(records, at + 1, at + 1) == [] && Span(records, at, at) == [];
    Rebound(records, lo, hi, next.head, next.tail);
  }

  /** pushInTransaction (`atTail`) and unshiftInTransaction: evict from the other end as the
      policy says, then store the item at this end. */
  method AddAtEnd(config: Config, db: Db, record: Record, atTail: bool)
    returns (r: Result<Db, Error>, ghost n: nat, ghost at: int)
    requires Accounted(db)
    ensures r.Err? <==> config.CannotAdd(db.used, record.item.bytes)
    ensures r.Ok? ==> Accounted(r.value) && config.Fits(r.value.used)
    ensures r.Ok? ==> Minimal(config, Rows(db), n, config.EvictsHead(atTail), record.item.bytes)
    ensures r.Ok? ==> var kept := Drop(Rows(db), n, config.EvictsHead(atTail));
      Rows(r.value) == if atTail then kept + [record] else [record] + kept
    ensures r.Ok? ==> Added(db.records, r.value.records, at, record)
    ensures r.Ok? && atTail && (config.limit.None? || config.policy.Reject?) ==>
      at == db.tail && r.value.records == db.records[at := record]
    ensures r.Ok? && atTail ==> at == r.value.tail - 1
    ensures r.Ok? && !config.Evicts() ==> r.value.tail - r.value.head == db.tail - db.head + 1
  {
    at := 0;
    if !config.Fits(record.item.bytes) { return Err(ItemTooLarge), 0, 0; }
    var evicted;
    evicted, n := EvictToFit(config, db, record.item.bytes, config.EvictsHead(atTail), []);
    if evicted.Err? { return Err(evicted.error), n, 0; }
    var next;
    next, at := StoreAtEnd(evicted.value, record, atTail);
    r := Ok(next);
  }

  method StoreAtEnd(db: Db, record: Record, atTail: bool) returns (next: Db, ghost at: int)
    requires Accounted(db)
    ensures Accounted(next) && next.used == db.used + record.item.bytes && Added(db.records, next.records, at, record)
    ensures Rows(next) == if atTail then Rows(db) + [record] else [record] + Rows(db)
    ensures atTail ==> at == db.tail == next.tail - 1
    ensures next.records == db.records[at := record] && next.tail - next.head == db.tail - db.head + 1
  {
    var position := if atTail then db.tail else db.head - 1;
    at := position;
    StoredAtEdge(db, position, record);
    next := StoreAtEdge(db, position, record);
  }

  /** `b` holds `record` at `at` and otherwise only unchanged records of `a`. */
  ghost predicate Added(a: map<int, Record>, b: map<int, Record>, at: int, record: Record) {
    && at in b && b[at] == record
    && forall k :: k in b && k != at ==> k in a && b[k] == a[k]
  }

  /** shift and pop: skip holes, take one record. */
  method TakeFromEnd(db: Db, atHead: bool) returns (next: Db, taken: Option<Record>)
    requires Accounted(db)
    ensures Accounted(next) && Subset(next.records, db.records) && next.used <= db.used
    ensures Rows(db) == [] ==> taken.None? && Rows(next) == []
    ensures Rows(db) != [] ==> Rows(next) == Drop(Rows(db), 1, atHead)
    ensures Rows(db) != [] ==> taken == Some(Rows(db)[if atHead then 0 else |Rows(db)| - 1])
  {
    next := db;
    while next.head < next.tail
      invariant next.head <= next.tail && next.used == db.used && next.records == db.records
      invariant Within(next.records, next.head, next.tail)
      decreases next.tail - next.head
    {
      var position := if atHead then next.head else next.tail - 1;
      next := if atHead then next.(head := position + 1) else next.(tail := position);
      if position in next.records {
        var record := next.records[position];
        EndRow(db, atHead, position);
        DeletedBytes(db.records, position, db.head, db.tail);
        Rebound(db.records - {position}, db.head, db.tail, next.head, next.tail);
        next := next.(records := next.records - {position}, used := next.used - record.item.bytes);
        return next, Some(record);
      }
    }
    SpanEmpty(db.records, db.head, db.tail);
    SumEmpty(Sizes(db.records), db.head, db.tail);
    next := next.(used := 0);
    taken := None;
  }

  /** `b` is `a` with `record` at `at`, once the growth of that slot has evicted what it must. */
  ghost predicate Replaced(config: Config, a: map<int, Record>, b: map<int, Record>, used: int, at: int,
      record: Record, atHead: bool) {
    var growth := record.item.bytes - SizeAt(a, at);
    if growth <= 0 then b == a[at := record]
    else exists left ::
      && b == left[at := record] && At(left, at) == At(a, at)
      && MadeRoom(config, a, left, used - growth, growth, atHead, [at])
  }

  /** putItem: replaces or fills one slot, evicting for the growth but never that slot. */
  method PutItem(config: Config, db: Db, position: int, record: Record, atHead: bool) returns (r: Result<Db, Error>)
    requires Accounted(db) && db.head <= position < db.tail
    ensures r.Err? <==> config.CannotPut(db.used, SizeAt(db.records, position), record.item.bytes)
    ensures r.Ok? ==> Accounted(r.value) && (config.Fits(db.used) ==> config.Fits(r.value.used))
    ensures r.Ok? ==> Added(db.records, r.value.records, position, record)
    ensures r.Ok? && (config.limit.None? || config.policy.Reject?) ==> r.value.records == db.records[position := record]
    ensures r.Ok? ==> Replaced(config, db.records, r.value.records, r.value.used, position, record, atHead)
  {
    var previous := SizeAt(db.records, position);
    var delta := record.item.bytes - previous;
    if !config.Fits(record.item.bytes) { return Err(ItemTooLarge); }
    var left := db;
    if delta > 0 {
      var evicted, n := EvictToFit(config, db, delta, atHead, [position]);
      if evicted.Err? { return Err(evicted.error); }
      left := evicted.value;
      assert position in [position] && SameAt(db.records, left.records, position);
      ReplacedFrom(config, db.records, left, position, record, atHead);
    }
    StoredOk(left, position, record);
    r := Ok(StoredAt(left, position, record));
  }

  function StoredAt(db: Db, at: int, record: Record): Db {
    db.(records := db.records[at := record], used := db.used - SizeAt(db.records, at) + record.item.bytes)
  }

  lemma StoredOk(db: Db, at: int, record: Record)
    requires Accounted(db) && db.head <= at < db.tail
    ensures Accounted(StoredAt(db, at, record))
  {
    StoredBytes(db.records, at, record, db.head, db.tail);
  }

  lemma ReplacedFrom(config: Config, a: map<int, Record>, left: Db, at: int, record: Record, atHead: bool)
    requires SameAt(a, left.records, at) && record.item.bytes > SizeAt(a, at)
    requires MadeRoom(config, a, left.records, left.used, record.item.bytes - SizeAt(a, at), atHead, [at])
    ensures var next := StoredAt(left, at, record);
      Replaced(config, a, next.records, next.used, at, record, atHead)
  {
    var growth := record.item.bytes - SizeAt(a, at);
    assert MadeRoom(config, a, left.records, StoredAt(left, at, record).used - growth, growth, atHead, [at]);
  }

  // ------------------------------------------------- inserting and removing

  /** `b` is `a` with the rows from `c` on moved up by one and position `c` left empty. */
  ghost predicate MovedUp(a: map<int, Record>, b: map<int, Record>, c: int) {
    forall q {:trigger At(b, q)} :: At(b, q) == UpAt(a, c, q)
  }

  function UpAt(a: map<int, Record>, c: int, q: int): Option<Record> {
    if q < c then At(a, q) else if q == c then None else At(a, q - 1)
  }

  /** Moving the rows from `slot` on up by one, last row first. */
  method ShiftUp(records: map<int, Record>, slot: int, tail: int) returns (shifted: map<int, Record>)
    requires slot <= tail && forall k :: k in records ==> k < tail
    ensures MovedUp(records, shifted, slot)
  {
    shifted := records;
    var c := tail;
    while c > slot
      invariant slot <= c <= tail && MovedUp(records, shifted, c)
    {
      ghost var was := shifted;
      assert At(was, c - 1) == UpAt(records, c, c - 1) && At(was, c) == UpAt(records, c, c);
      if c - 1 in shifted {
        shifted := shifted[c := shifted[c - 1]] - {c - 1};
      }
      forall q {:trigger At(shifted, q)} ensures At(shifted, q) == UpAt(records, c - 1, q) {
        assert At(was, q) == UpAt(records, c, q);
      }
      c := c - 1;
    }
  }

  /** What an insertion leaves: the evicting policy has dropped `n` rows first, as few as it
      can, and the index counts from the head that is left. */
  ghost predicate InsertedBy(config: Config, db: Db, index: int, record: Record, left: Db, n: nat, placed: int,
      next: Db) {
    var atHead := config.EvictsHead(2 * index > db.tail - db.head);
    && Minimal(config, Rows(db), n, atHead, record.item.bytes) && Rows(left) == Drop(Rows(db), n, atHead)
    && Subset(left.records, db.records) && (if n == 0 then left == db else Tight(left))
    && placed == (if index < left.tail - left.head then index else left.tail - left.head)
    && left.head + placed <= left.tail && left.head <= left.head + placed
    && Rows(next) == Span(left.records, left.head, left.head + placed) + [record]
                     + Span(left.records, left.head + placed, left.tail)
  }

  /** insertAtInTransaction: the rows keep their order around the new one. */
  method InsertAtPosition(config: Config, db: Db, index: int, record: Record)
    returns (r: Result<Db, Error>, placed: int, ghost left: Db, ghost n: nat)
    requires Accounted(db)
    ensures r.Err? <==> !(0 <= index <= db.tail - db.head) || config.CannotAdd(db.used, record.item.bytes)
    ensures r.Ok? ==> Accounted(r.value) && config.Fits(r.value.used)
    ensures r.Ok? ==> InsertedBy(config, db, index, record, left, n, placed, r.value)
    ensures r.Ok? ==> Inserted(left.records, r.value.records, left.head + placed, record)
  {
    left, n, placed := db, 0, 0;
    var length := db.tail - db.head;
    if !(0 <= index <= length) { return Err(IndexOutOfRange), placed, left, n; }
    if !config.Fits(record.item.bytes) { return Err(ItemTooLarge), placed, left, n; }
    var first;
    first, n := EvictToFit(config, db, record.item.bytes, config.EvictsHead(2 * index > length), []);
    if first.Err? { return Err(first.error), placed, left, n; }
    var nextLength := first.value.tail - first.value.head;
    placed := if index < nextLength then index else nextLength;
    var second := EvictAgain(config, first.value, record.item.bytes, config.EvictsHead(2 * placed > nextLength));
    left := second;
    var next := InsertRow(second, second.head + placed, record);
    r := Ok(next);
  }

  /** The second call of evictToFit: room was made already, so it neither fails nor evicts. */
  method EvictAgain(config: Config, db: Db, required: nat, atHead: bool) returns (next: Db)
    requires Accounted(db) && Roomy(config, db, required) && config.Fits(db.used + required)
    ensures next == db
  {
    var r, n := EvictToFit(config, db, required, atHead, []);
    next := r.value;
  }

  /** The rows from `slot` on move up, last row first, and the record takes the slot. */
  method InsertRow(db: Db, slot: int, record: Record) returns (next: Db)
    requires Accounted(db) && db.head <= slot <= db.tail
    ensures Accounted(next) && next.used == db.used + record.item.bytes
    ensures Inserted(db.records, next.records, slot, record)
    ensures Rows(next) == Span(db.records, db.head, slot) + [record] + Span(db.records, slot, db.tail)
  {
    var shifted := ShiftUp(db.records, slot, db.tail);
    var records := shifted[slot := record];
    forall q {:trigger At(records, q)} ensures At(records, q) == InsertedAt(db.records, slot, record, q) {
      assert At(shifted, q) == UpAt(db.records, slot, q);
    }
    InsertedRows(db, slot, record, records);
    InsertedBytes(db, slot, record, records);
    next := Db(if db.head >= db.tail then slot else db.head, db.tail + 1, db.used + record.item.bytes, records);
  }

  /** `b` is `a` with `record` put in before the row at `slot`. */
  ghost predicate Inserted(a: map<int, Record>, b: map<int, Record>, slot: int, record: Record) {
    forall q {:trigger At(b, q)} :: At(b, q) == InsertedAt(a, slot, record, q)
  }

  function InsertedAt(a: map<int, Record>, slot: int, record: Record, q: int): Option<Record> {
    if q < slot then At(a, q) else if q == slot then Some(record) else At(a, q - 1)
  }

  lemma InsertedRows(db: Db, slot: int, record: Record, records: map<int, Record>)
    requires Accounted(db) && db.head <= slot <= db.tail && Inserted(db.records, records, slot, record)
    ensures Within(records, db.head, db.tail + 1)
    ensures Span(records, db.head, db.tail + 1)
         == Span(db.records, db.head, slot) + [record] + Span(db.records, slot, db.tail)
  {
    forall k | k in records ensures db.head <= k < db.tail + 1 { assert At(records, k) != None; }
    assert At(records, slot) == Some(record);
    SpanAt(records, db.head, slot, db.tail + 1);
    SameStretch(db.records, records, db.head, slot, 0);
    SameStretch(db.records, records, slot, db.tail, 1);
  }

  lemma InsertedBytes(db: Db, slot: int, record: Record, records: map<int, Record>)
    requires Accounted(db) && db.head <= slot <= db.tail && Inserted(db.records, records, slot, record)
    ensures Sum(Sizes(records), db.head, db.tail + 1) == db.used + record.item.bytes
  {
    assert At(records, slot) == Some(record);
    SumSplit(Sizes(db.records), db.head, slot, db.tail);
    SumSplit(Sizes(records), db.head, slot, db.tail + 1);
    SameStretch(db.records, records, db.head, slot, 0);
    SameStretch(db.records, records, slot, db.tail, 1);
  }

  /** Equal stretches of records, possibly shifted, hold equal rows and bytes. */
  lemma SameStretch(a: map<int, Record>, b: map<int, Record>, lo: int, hi: int, d: int)
    requires forall k {:trigger At(a, k)} :: lo <= k < hi ==> At(a, k) == At(b, k + d)
    ensures Span(a, lo, hi) == Span(b, lo + d, hi + d)
    ensures Sum(Sizes(a), lo, hi) == Sum(Sizes(b), lo + d, hi + d)
  {
    forall k | lo <= k < hi ensures At(a, k) == At(b, k + d) && At(Sizes(a), k) == At(Sizes(b), k + d) {
      assert At(a, k) == At(b, k + d);
    }
    SpanShift(a, b, lo, hi, d);
    SumShift(Sizes(a), Sizes(b), lo, hi, d);
  }

  /** Moving the rows after `slot` down by one, first row first. */
  method ShiftDown(records: map<int, Record>, slot: int, tail: int) returns (shifted: map<int, Record>)
    requires slot < tail && slot !in records && forall k :: k in records ==> k < tail
    ensures Closed(records, shifted, slot)
  {
    shifted := records;
    var c := slot;
    while c + 1 < tail
      invariant slot <= c < tail
      invariant forall q {:trigger At(shifted, q)} :: At(shifted, q) == DownAt(records, slot, c, q)
    {
      ghost var was := shifted;
      assert At(was, c + 1) == DownAt(records, slot, c, c + 1) && At(was, c) == DownAt(records, slot, c, c);
      if c + 1 in shifted {
        shifted := shifted[c := shifted[c + 1]] - {c + 1};
      }
      forall q {:trigger At(shifted, q)} ensures At(shifted, q) == DownAt(records, slot, c + 1, q) {
        assert At(was, q) == DownAt(records, slot, c, q);
      }
      c := c + 1;
    }
    forall q {:trigger At(shifted, q)} ensures At(shifted, q) == ClosedAt(records, slot, q) {
      assert At(shifted, q) == DownAt(records, slot, c, q);
    }
  }

  function DownAt(a: map<int, Record>, slot: int, c: int, q: int): Option<Record> {
    if q < slot || q > c then At(a, q) else if q == c then None else At(a, q + 1)
  }

  /** `b` is `a` without the row at `slot`, the rows after it moved down. */
  ghost predicate Closed(a: map<int, Record>, b: map<int, Record>, slot: int) {
    forall q {:trigger At(b, q)} :: At(b, q) == ClosedAt(a, slot, q)
  }

  function ClosedAt(a: map<int, Record>, slot: int, q: int): Option<Record> {
    if q < slot then At(a, q) else At(a, q + 1)
  }

  /** removeAtInTransaction: drops exactly the row at the index, whatever holes surround it. */
  method RemoveAtPosition(db: Db, index: int) returns (r: Result<(Db, Option<Record>), Error>)
    requires Accounted(db)
    ensures r.Err? <==> !(0 <= index < db.tail - db.head)
    ensures r.Ok? ==> Accounted(r.value.0) && r.value.1 == At(db.records, db.head + index)
    ensures r.Ok? ==> Rows(r.value.0) == Span(db.records, db.head, db.head + index)
                                         + Span(db.records, db.head + index + 1, db.tail)
    ensures r.Ok? ==> r.value.0.used == db.used - SizeAt(db.records, db.head + index)
    ensures r.Ok? ==> Closed(db.records, r.value.0.records, db.head + index)
  {
    if !(0 <= index < db.tail - db.head) { return Err(IndexOutOfRange); }
    var slot := db.head + index;
    var removed := At(db.records, slot);
    var shifted := ShiftDown(db.records - {slot}, slot, db.tail);
    RemovedRows(db, slot, shifted);
    RemovedBytes(db, slot, shifted);
    var closed := Db(db.head, db.tail - 1, db.used - SizeAt(db.records, slot), shifted);
    var next := TrimBounds(closed, []);
    r := Ok((next, removed));
  }

  /** Closing a slot gives the same records whether or not it was emptied first. */
  lemma ClosedBefore(before: map<int, Record>, slot: int, records: map<int, Record>)
    requires Closed(before - {slot}, records, slot)
    ensures Closed(before, records, slot)
  {
  }

  lemma RemovedRows(db: Db, slot: int, records: map<int, Record>)
    requires Accounted(db) && db.head <= slot < db.tail && Closed(db.records - {slot}, records, slot)
    ensures Within(records, db.head, db.tail - 1) && Closed(db.records, records, slot)
    ensures Span(records, db.head, db.tail - 1)
         == Span(db.records, db.head, slot) + Span(db.records, slot + 1, db.tail)
  {
    ClosedBefore(db.records, slot, records);
    forall k | k in records ensures db.head <= k < db.tail - 1 { assert At(records, k) != None; }
    SpanSplit(records, db.head, slot, db.tail - 1);
    SameStretch(records, db.records, db.head, slot, 0);
    SameStretch(records, db.records, slot, db.tail - 1, 1);
  }

  lemma RemovedBytes(db: Db, slot: int, records: map<int, Record>)
    requires Accounted(db) && db.head <= slot < db.tail && Closed(db.records, records, slot)
    ensures Sum(Sizes(records), db.head, db.tail - 1) == db.used - SizeAt(db.records, slot)
  {
    SumSplit(Sizes(records), db.head, slot, db.tail - 1);
    SumSplit(Sizes(db.records), db.head, slot, db.tail);
    SameStretch(records, db.records, db.head, slot, 0);
    SameStretch(records, db.records, slot, db.tail - 1, 1);
  }

  // --------------------------------------------------------------- coalescing

  predicate Active(record: Record, now: int) {
    record.lease.Some? && record.lease.value.until > now
  }

  /** The positions a query for `key` returns: ascending, and exactly the matching ones. */
  method Matching(db: Db, key: string) returns (positions: seq<int>)
    requires Accounted(db)
    ensures forall i, j :: 0 <= i < j < |positions| ==> positions[i] < positions[j]
    ensures forall k :: k in positions <==> k in db.records && db.records[k].item.key == key
  {
    positions := [];
    for k := db.head to db.tail
      invariant forall i, j :: 0 <= i < j < |positions| ==> positions[i] < positions[j]
      invariant forall i :: 0 <= i < |positions| ==> positions[i] < k
      invariant forall q :: q in positions <==> q in db.records && db.records[q].item.key == key && q < k
    {
      if k in db.records && db.records[k].item.key == key {
        positions := positions + [k];
      }
    }
  }

  /** What an index declared unique makes of the stored records. */
  ghost predicate Unique(records: map<int, Record>) {
    forall k, l :: k in records && l in records && records[k].item.key == records[l].item.key ==> k == l
  }

  ghost predicate HasKey(records: map<int, Record>, key: string) {
    exists k :: k in records && records[k].item.key == key
  }

  /** The record at `at` was replaced, its growth evicting what it must. */
  ghost predicate StoredOver(config: Config, db: Db, next: Db, at: int, record: Record) {
    Replaced(config, db.records, next.records, next.used, at, record,
      config.EvictsHead(2 * (at - db.head) > db.tail - db.head))
  }

  /** The record was appended behind as many of the old rows as fit. */
  ghost predicate StoredBehind(config: Config, db: Db, next: Db, record: Record) {
    exists n ::
      && Minimal(config, Rows(db), n, config.EvictsHead(true), record.item.bytes)
      && Rows(next) == Drop(Rows(db), n, config.EvictsHead(true)) + [record]
  }

  /** The record took the place of the one of its key, or the last place. */
  ghost predicate Upserted(config: Config, db: Db, next: Db, at: int, record: Record) {
    && Added(db.records, next.records, at, record)
    && if HasKey(db.records, record.item.key) then StoredOver(config, db, next, at, record)
       else at == next.tail - 1 && StoredBehind(config, db, next, record)
  }

  ghost predicate FirstOf(records: map<int, Record>, key: string, at: int) {
    at in records && records[at].item.key == key && forall k :: k in records && records[k].item.key == key ==> at <= k
  }

  /** What putBy does: it fails exactly when the item does not fit where it goes, refuses
      exactly a new key that is not to be added, and stores the item otherwise. */
  ghost predicate PutDone(config: Config, db: Db, record: Record, existingOnly: bool, r: Result<Option<Db>, Error>,
      at: int) {
    && (r == Ok(None) <==> existingOnly && !HasKey(db.records, record.item.key))
    && (if HasKey(db.records, record.item.key) then
          FirstOf(db.records, record.item.key, at)
          && (r.Err? <==> config.CannotPut(db.used, db.records[at].item.bytes, record.item.bytes))
        else r.Err? <==> !existingOnly && config.CannotAdd(db.used, record.item.bytes))
    && (r.Ok? && r.value.Some? ==> Upserted(config, db, r.value.value, at, record))
  }

  /** putBy: the record of the key is replaced in place, whoever leases it, or the item is
      appended; Ok(None) is the refusal to add a new key. */
  method PutBy(config: Config, db: Db, record: Record, existingOnly: bool)
    returns (r: Result<Option<Db>, Error>, ghost at: int)
    requires Accounted(db)
    ensures PutDone(config, db, record, existingOnly, r, at)
    ensures r.Ok? && r.value.Some? ==>
      Accounted(r.value.value) && (config.Fits(db.used) ==> config.Fits(r.value.value.used))
  {
    at := 0;
    var next;
    var positions := Matching(db, record.item.key);
    if positions != [] {
      var previous := positions[0];
      assert previous in positions;
      at := previous;
      next := PutItem(config, db, previous, record, config.EvictsHead(2 * (previous - db.head) > db.tail - db.head));
    } else {
      assert forall k :: k in db.records && db.records[k].item.key == record.item.key ==> k in positions;
      if existingOnly { return Ok(None), at; }
      ghost var n;
      next, n, at := AddAtEnd(config, db, record, true);
    }
    if next.Err? { return Err(next.error), at; }
    r := Ok(Some(next.value));
  }

  /** An upsert keeps a unique key unique. */
  lemma UniqueAdded(a: map<int, Record>, b: map<int, Record>, at: int, record: Record)
    requires Unique(a) && Added(a, b, at, record)
    requires HasKey(a, record.item.key) ==> FirstOf(a, record.item.key, at)
    ensures Unique(b)
  {
  }

  /** The matches that no current lease holds. */
  method Waiting(db: Db, positions: seq<int>, now: int) returns (pending: seq<int>)
    requires forall i, j :: 0 <= i < j < |positions| ==> positions[i] < positions[j]
    requires forall k :: k in positions ==> k in db.records
    ensures forall k :: k in pending <==> k in positions && !Active(db.records[k], now)
    ensures forall j, l :: 0 <= j < l < |pending| ==> pending[j] < pending[l]
  {
    pending := [];
    for i := 0 to |positions|
      invariant forall k :: k in pending <==> k in positions[..i] && !Active(db.records[k], now)
      invariant forall j :: 0 <= j < |pending| && i < |positions| ==> pending[j] < positions[i]
      invariant forall j, l :: 0 <= j < l < |pending| ==> pending[j] < pending[l]
    {
      var position := positions[i];
      assert position in positions;
      assert positions[..i + 1] == positions[..i] + [position];
      if !Active(db.records[position], now) {
        pending := pending + [position];
      }
    }
    assert positions[..|positions|] == positions;
  }

  /** The reduce over the matches, in order: a candidate takes over when it compares above. */
  function Latest(records: map<int, Record>, positions: seq<int>): (latest: int)
    requires positions != [] && forall k :: k in positions ==> k in records
    ensures latest in positions
  {
    var n := |positions| - 1;
    if n == 0 then positions[0]
    else
      var current := Latest(records, positions[..n]);
      var last := positions[n];
      assert last in positions;
      if Compare(records[last].item.order, records[current].item.order) > 0 then last else current
  }

  method LatestOf(db: Db, positions: seq<int>) returns (latest: int)
    requires positions != [] && forall k :: k in positions ==> k in db.records
    ensures latest == Latest(db.records, positions)
  {
    latest := positions[0];
    assert positions[..1] == [positions[0]];
    for i := 1 to |positions|
      invariant forall k :: k in positions[..i] ==> k in positions
      invariant latest == Latest(db.records, positions[..i])
    {
      var candidate := positions[i];
      assert positions[..i + 1][..i] == positions[..i];
      if Compare(db.records[candidate].item.order, db.records[latest].item.order) > 0 {
        latest := candidate;
      }
    }
    assert positions[..|positions|] == positions;
  }

  /** In an ordered queue the reduce finds the last match, which no other match outdoes. */
  lemma LatestIsLast(records: map<int, Record>, positions: seq<int>)
    requires positions != [] && forall k :: k in positions ==> k in records
    requires Ordered(records) && forall i, j :: 0 <= i < j < |positions| ==>
      positions[i] < positions[j] && records[positions[i]].item.key == records[positions[j]].item.key
    ensures Latest(records, positions) == positions[|positions| - 1]
  {
    var n := |positions| - 1;
    if n > 0 {
      var front := positions[..n];
      LatestIsLast(records, front);
      assert front[n - 1] == positions[n - 1] && positions[n - 1] in positions && positions[n] in positions;
      Antisymmetric(records[positions[n - 1]].item.order, records[positions[n]].item.order);
    }
  }

  /** Per key, orders increase with position, and every record but the last is leased. */
  ghost predicate Ordered(records: map<int, Record>) {
    forall k, l :: k in records && l in records && k < l && records[k].item.key == records[l].item.key ==>
      Less(records[k].item.order, records[l].item.order) && records[k].lease.Some?
  }

  ghost predicate NoLapse(records: map<int, Record>, now: int) {
    forall k :: k in records && records[k].lease.Some? ==> records[k].lease.value.until > now
  }

  predicate Numbered(order: Order) { order.sequence.Some? }

  /** Two stored orders of the key and the new one compare transitively: not exactly two of
      the three carry a sequence. One stored order may be numbered in any way. */
  ghost predicate Alike(records: map<int, Record>, item: Item) {
    forall k, l :: k in records && l in records && k < l && records[k].item.key == records[l].item.key == item.key ==>
      Carriers(records[k].item.order, records[l].item.order, item.order) != 2
  }

  function Carriers(a: Order, b: Order, c: Order): nat {
    (if Numbered(a) then 1 else 0) + (if Numbered(b) then 1 else 0) + (if Numbered(c) then 1 else 0)
  }

  /** Some stored item of the key is at or above `item`. */
  ghost predicate Outdated(records: map<int, Record>, item: Item) {
    exists k :: k in records && records[k].item.key == item.key && !Less(records[k].item.order, item.order)
  }

  predicate IsWaiting(records: map<int, Record>, k: int, key: string, now: int) {
    k in records && records[k].item.key == key && !Active(records[k], now)
  }

  /** Some stored item of the key is free to be replaced. */
  ghost predicate HasWaiting(records: map<int, Record>, key: string, now: int) {
    exists k :: IsWaiting(records, k, key, now)
  }

  /** Apart from position `at`, the key's records are all being processed. */
  ghost predicate OnlyActive(records: map<int, Record>, at: int, key: string, now: int) {
    forall k :: k in records && k != at && records[k].item.key == key ==> Active(records[k], now)
  }

  datatype Outcome = Ignored | Stored(position: int, removed: nat)

  ghost predicate Matches(records: map<int, Record>, key: string, positions: seq<int>) {
    && (forall i, j :: 0 <= i < j < |positions| ==> positions[i] < positions[j])
    && forall k :: k in positions <==> k in records && records[k].item.key == key
  }

  /** The comparison against the latest match turns the item down. */
  predicate TurnedDown(records: map<int, Record>, positions: seq<int>, order: Order)
    requires forall k :: k in positions ==> k in records
  {
    positions != [] && Compare(order, records[Latest(records, positions)].item.order) <= 0
  }

  /** What storing a coalesced item does. With a waiting record of the key, `cleared` is the
      queue without the other waiting ones, and the first of them is replaced; otherwise the
      item is appended. It fails exactly when the item does not fit there. */
  ghost predicate Coalesced(config: Config, db: Db, record: Record, now: int, position: int, removed: nat,
      cleared: Db, r: Result<Db, Error>) {
    if HasWaiting(db.records, record.item.key, now) then
      && FirstWaiting(db.records, position, record.item.key, now)
      && Cleared(db, cleared, position, record.item.key, now)
      && removed == |db.records.Keys| - |cleared.records.Keys|
      && (r.Err? <==> config.CannotPut(cleared.used, SizeAt(db.records, position), record.item.bytes))
      && (r.Ok? ==> StoredOver(config, cleared, r.value, position, record))
    else
      && (r.Err? <==> config.CannotAdd(db.used, record.item.bytes))
      && (r.Ok? ==> position == r.value.tail - 1 && removed == 0 && StoredBehind(config, db, r.value, record))
  }

  ghost predicate FirstWaiting(records: map<int, Record>, at: int, key: string, now: int) {
    IsWaiting(records, at, key, now) && forall k :: IsWaiting(records, k, key, now) ==> at <= k
  }

  /** All waiting records of the key but the one at `at` are gone, and their bytes with them. */
  ghost predicate Cleared(db: Db, cleared: Db, at: int, key: string, now: int) {
    && Accounted(cleared) && cleared.head == db.head && cleared.tail == db.tail && Subset(cleared.records, db.records)
    && forall k :: k in db.records ==> (k in cleared.records <==> k == at || !IsWaiting(db.records, k, key, now))
  }

  /** The decision of a call of coalesceBy and what comes of it. */
  datatype Plan = Plan(outcome: Outcome, done: Result<Db, Error>, positions: seq<int>, cleared: Db)

  ghost predicate Planned(config: Config, db: Db, record: Record, comparing: bool, keepOldest: bool, now: int,
      plan: Plan) {
    var key := record.item.key;
    && Matches(db.records, key, plan.positions)
    && (plan.outcome.Ignored? <==>
          (comparing && TurnedDown(db.records, plan.positions, record.item.order))
          || (keepOldest && HasWaiting(db.records, key, now)))
    && if plan.outcome.Ignored? then plan.done == Ok(db)
       else
         && Coalesced(config, db, record, now, plan.outcome.position, plan.outcome.removed, plan.cleared, plan.done)
         && (plan.done.Ok? ==> Delivered(config, db, record, now, plan.outcome.position, plan.cleared, plan.done.value))
  }

  /** Of the key only records being processed are left beside the new one. */
  ghost predicate Delivered(config: Config, db: Db, record: Record, now: int, position: int, cleared: Db, next: Db) {
    var base := if HasWaiting(db.records, record.item.key, now) then cleared.records else db.records;
    && Added(db.records, next.records, position, record) && OnlyActive(next.records, position, record.item.key, now)
    && (config.limit.None? || config.policy.Reject? ==>
          && next.records == base[position := record]
          && (position == db.tail || HasWaiting(db.records, record.item.key, now)))
  }

  /** coalesceBy: an item that no stored one of its key compares at or above takes the place
      of the waiting records of that key, or follows the ones being processed. */
  method Coalesce(config: Config, db: Db, record: Record, comparing: bool, keepOldest: bool, now: int)
    returns (r: Result<Db, Error>, outcome: Outcome, ghost positions: seq<int>, ghost cleared: Db)
    requires Accounted(db)
    ensures Planned(config, db, record, comparing, keepOldest, now, Plan(outcome, r, positions, cleared))
    ensures r.Ok? ==> Accounted(r.value) && (config.Fits(db.used) ==> config.Fits(r.value.used))
  {
    cleared := db;
    var found := Matching(db, record.item.key);
    positions := found;
    var pending := Waiting(db, found, now);
    assert forall k :: k in pending <==> IsWaiting(db.records, k, record.item.key, now);
    assert pending != [] ==> pending[0] in pending;
    if comparing && found != [] {
      var latest := LatestOf(db, found);
      if Compare(record.item.order, db.records[latest].item.order) <= 0 { return Ok(db), Ignored, positions, cleared; }
    }
    if keepOldest && pending != [] { return Ok(db), Ignored, positions, cleared; }
    if pending == [] {
      r, outcome := AddCoalesced(config, db, record, now);
    } else {
      r, outcome, cleared := ReplacePending(config, db, record, pending, now);
    }
  }

  /** Without a waiting record of the key the item is appended. */
  method AddCoalesced(config: Config, db: Db, record: Record, ghost now: int)
    returns (r: Result<Db, Error>, outcome: Outcome)
    requires Accounted(db) && !HasWaiting(db.records, record.item.key, now)
    ensures outcome.Stored? && Coalesced(config, db, record, now, outcome.position, outcome.removed, db, r)
    ensures r.Ok? ==> Accounted(r.value) && (config.Fits(db.used) ==> config.Fits(r.value.used))
    ensures r.Ok? ==> Delivered(config, db, record, now, outcome.position, db, r.value)
  {
    ghost var n, at;
    r, n, at := AddAtEnd(config, db, record, true);
    outcome := Stored(if r.Ok? then r.value.tail - 1 else 0, 0);
    assert forall k :: k in db.records && db.records[k].item.key == record.item.key ==>
      !IsWaiting(db.records, k, record.item.key, now);
  }

  /** In an ordered queue with comparable orders an item is turned down exactly when some
      stored item of its key is at or above it. */
  lemma TurnedDownExactly(records: map<int, Record>, positions: seq<int>, item: Item)
    requires Ordered(records) && Alike(records, item) && Matches(records, item.key, positions)
    ensures TurnedDown(records, positions, item.order) <==> Outdated(records, item)
  {
    if positions != [] {
      var last := positions[|positions| - 1];
      assert last in positions && forall i :: 0 <= i < |positions| ==> positions[i] in positions;
      LatestIsLast(records, positions);
      Antisymmetric(records[last].item.order, item.order);
      if Less(records[last].item.order, item.order) {
        forall k | k in records && records[k].item.key == item.key ensures Less(records[k].item.order, item.order) {
          assert k in positions;
          var i :| 0 <= i < |positions| && positions[i] == k;
          if k != last { ThreeTransitive(records[k].item.order, records[last].item.order, item.order); }
        }
      } else {
        assert Outdated(records, item);
      }
    }
  }

  lemma ThreeTransitive(a: Order, b: Order, c: Order)
    requires Carriers(a, b, c) != 2 && Less(a, b) && Less(b, c)
    ensures Less(a, c)
  {
    TransitiveExactly(Numbered(a), Numbered(b), Numbered(c));
  }

  /** In an ordered queue only the last record of the key decides whether an item is turned
      down, however the orders are numbered. */
  lemma TurnedDownByLast(records: map<int, Record>, positions: seq<int>, item: Item)
    requires Ordered(records) && Matches(records, item.key, positions)
    ensures TurnedDown(records, positions, item.order) <==> DownByLast(records, item)
  {
    LastOfMatches(records, positions, item.key);
    if positions != [] {
      assert forall i :: 0 <= i < |positions| ==> positions[i] in positions;
      LatestIsLast(records, positions);
    }
  }

  lemma LastOfMatches(records: map<int, Record>, positions: seq<int>, key: string)
    requires Matches(records, key, positions)
    ensures forall k :: IsLast(records, k, key) <==> positions != [] && k == positions[|positions| - 1]
  {
    if positions != [] {
      var last := positions[|positions| - 1];
      assert last in positions;
      forall l | l in records && records[l].item.key == key ensures l <= last { assert l in positions; }
    } else {
      forall k | k in records ensures records[k].item.key != key { assert k !in positions; }
    }
  }

  predicate IsLast(records: map<int, Record>, k: int, key: string) {
    k in records && records[k].item.key == key && forall l :: l in records && records[l].item.key == key ==> l <= k
  }

  /** The last record of the key is at or above `item`. */
  predicate DownByLast(records: map<int, Record>, item: Item) {
    exists k :: k in records && IsLast(records, k, item.key) && Compare(item.order, records[k].item.order) <= 0
  }

  /** Every record of the key that is being processed is below `item`, and lies before all
      waiting ones. */
  predicate InOrder(records: map<int, Record>, item: Item, now: int) {
    forall k :: k in records && records[k].item.key == item.key && Active(records[k], now) ==>
      && Less(records[k].item.order, item.order)
      && forall w :: w in records && IsWaiting(records, w, item.key, now) ==> k < w
  }

  /** The records of the key beside the new one at `at` are below it and before it. */
  ghost predicate Follows(records: map<int, Record>, at: int, item: Item) {
    forall k :: k in records && k != at && records[k].item.key == item.key ==>
      k < at && Less(records[k].item.order, item.order)
  }

  /** A stored item keeps the order of its key exactly when the records left of that key are
      below it and before it. */
  lemma StoredInOrder(config: Config, db: Db, record: Record, comparing: bool, keepOldest: bool, now: int, plan: Plan)
    requires Ordered(db.records) && Planned(config, db, record, comparing, keepOldest, now, plan)
    requires plan.outcome.Stored? && plan.done.Ok?
    ensures Follows(plan.done.value.records, plan.outcome.position, record.item) ==> Ordered(plan.done.value.records)
    ensures record.lease.None? && Ordered(plan.done.value.records) ==>
      Follows(plan.done.value.records, plan.outcome.position, record.item)
  {
    var position, next := plan.outcome.position, plan.done.value.records;
    assert OnlyActive(next, position, record.item.key, now) && Added(db.records, next, position, record);
    if record.lease.None? && Ordered(next) {
      forall k | k in next && k != position && next[k].item.key == record.item.key
        ensures k < position && Less(next[k].item.order, record.item.order)
      {
        assert next[position].lease.None?;
      }
    }
  }

  /** Under every policy InOrder is enough for a call to keep the order; without eviction it
      is exactly what keeps it, whatever the numbering and whatever leases have lapsed. */
  lemma CoalescedOrderExactly(config: Config, db: Db, record: Record, comparing: bool, keepOldest: bool, now: int,
      plan: Plan)
    requires Accounted(db) && Ordered(db.records)
    requires Planned(config, db, record, comparing, keepOldest, now, plan)
    requires plan.outcome.Stored? && plan.done.Ok? && Accounted(plan.done.value)
    ensures InOrder(db.records, record.item, now) ==> Ordered(plan.done.value.records)
    ensures !config.Evicts() && record.lease.None? ==>
      (Ordered(plan.done.value.records) <==> InOrder(db.records, record.item, now))
  {
    StoredInOrder(config, db, record, comparing, keepOldest, now, plan);
    if InOrder(db.records, record.item, now) { InOrderFollows(config, db, record, now, plan); }
    if !config.Evicts() && record.lease.None? && Follows(plan.done.value.records, plan.outcome.position, record.item) {
      FollowsInOrder(config, db, record, now, plan);
    }
  }

  /** Seen before the call: it leaves its item alone, or finds it in order. */
  predicate KeepsOrder(records: map<int, Record>, item: Item, comparing: bool, keepOldest: bool, now: int) {
    || (comparing && DownByLast(records, item))
    || (keepOldest && exists k :: k in records && IsWaiting(records, k, item.key, now))
    || InOrder(records, item, now)
  }

  /** Such a call keeps the order under every policy; without eviction exactly such a call
      does, unless the item does not fit. */
  lemma CallKeepsOrderExactly(config: Config, db: Db, record: Record, comparing: bool, keepOldest: bool, now: int,
      plan: Plan)
    requires Accounted(db) && Ordered(db.records)
    requires Planned(config, db, record, comparing, keepOldest, now, plan)
    requires plan.done.Ok? && Accounted(plan.done.value)
    ensures KeepsOrder(db.records, record.item, comparing, keepOldest, now) ==> Ordered(plan.done.value.records)
    ensures !config.Evicts() && record.lease.None? ==>
      (Ordered(plan.done.value.records) <==> KeepsOrder(db.records, record.item, comparing, keepOldest, now))
  {
    TurnedDownByLast(db.records, plan.positions, record.item);
    if plan.outcome.Stored? { CoalescedOrderExactly(config, db, record, comparing, keepOldest, now, plan); }
  }

  lemma InOrderFollows(config: Config, db: Db, record: Record, now: int, plan: Plan)
    requires plan.outcome.Stored? && plan.done.Ok? && Accounted(plan.done.value)
    requires Coalesced(config, db, record, now, plan.outcome.position, plan.outcome.removed, plan.cleared, plan.done)
    requires Delivered(config, db, record, now, plan.outcome.position, plan.cleared, plan.done.value)
    requires InOrder(db.records, record.item, now)
    ensures Follows(plan.done.value.records, plan.outcome.position, record.item)
  {
    var position, next, key := plan.outcome.position, plan.done.value, record.item.key;
    forall k | k in next.records && k != position && next.records[k].item.key == key
      ensures k < position && Less(next.records[k].item.order, record.item.order)
    {
      assert k in db.records && next.records[k] == db.records[k] && Active(db.records[k], now);
      if HasWaiting(db.records, key, now) {
        assert IsWaiting(db.records, position, key, now);
      } else {
        assert position == next.tail - 1;
      }
    }
  }

  lemma FollowsInOrder(config: Config, db: Db, record: Record, now: int, plan: Plan)
    requires !config.Evicts() && plan.outcome.Stored? && plan.done.Ok? && Within(db.records, db.head, db.tail)
    requires Coalesced(config, db, record, now, plan.outcome.position, plan.outcome.removed, plan.cleared, plan.done)
    requires Delivered(config, db, record, now, plan.outcome.position, plan.cleared, plan.done.value)
    requires Follows(plan.done.value.records, plan.outcome.position, record.item)
    ensures InOrder(db.records, record.item, now)
  {
    var position, next, key := plan.outcome.position, plan.done.value.records, record.item.key;
    forall k | k in db.records && db.records[k].item.key == key && Active(db.records[k], now)
      ensures Less(db.records[k].item.order, record.item.order)
      ensures forall w :: w in db.records && IsWaiting(db.records, w, key, now) ==> k < w
    {
      if HasWaiting(db.records, key, now) {
        assert FirstWaiting(db.records, position, key, now) && !IsWaiting(db.records, k, key, now);
        assert k in plan.cleared.records;
      }
      assert k != position && k in next && next[k] == db.records[k];
    }
  }

  /** Before any lease has lapsed, an item that compares with the stored ones and is not
      turned down is in order. */
  lemma AboveIsInOrder(records: map<int, Record>, item: Item, now: int)
    requires Ordered(records) && NoLapse(records, now) && !Outdated(records, item)
    ensures InOrder(records, item, now)
  {
    forall k, w | k in records && records[k].item.key == item.key && Active(records[k], now)
                  && w in records && IsWaiting(records, w, item.key, now)
      ensures k < w
    {
      WaitingIsLast(records, item.key, now, w, k);
    }
  }

  /** So before any lease has lapsed, comparable items keep the order of every key. */
  lemma CoalescedKeepsOrder(config: Config, db: Db, record: Record, keepOldest: bool, now: int, plan: Plan)
    requires Accounted(db) && Ordered(db.records) && NoLapse(db.records, now) && Alike(db.records, record.item)
    requires Planned(config, db, record, true, keepOldest, now, plan)
    requires plan.done.Ok? && Accounted(plan.done.value)
    ensures Ordered(plan.done.value.records)
  {
    if plan.outcome.Stored? {
      TurnedDownExactly(db.records, plan.positions, record.item);
      AboveIsInOrder(db.records, record.item, now);
      CoalescedOrderExactly(config, db, record, true, keepOldest, now, plan);
    }
  }

  /** In an ordered queue without lapsed leases the waiting record of a key is its last one,
      so there is at most one. */
  lemma WaitingIsLast(records: map<int, Record>, key: string, now: int, k: int, l: int)
    requires Ordered(records) && NoLapse(records, now) && IsWaiting(records, k, key, now)
    requires l in records && records[l].item.key == key
    ensures l <= k
  {
  }

  method DropRecord(db: Db, at: int) returns (next: Db)
    requires Accounted(db) && at in db.records
    ensures Accounted(next) && next.head == db.head && next.tail == db.tail && next.used <= db.used
    ensures next.records == db.records - {at} && |next.records.Keys| == |db.records.Keys| - 1
  {
    DeletedBytes(db.records, at, db.head, db.tail);
    next := db.(records := db.records - {at}, used := db.used - SizeAt(db.records, at));
    assert next.records.Keys == db.records.Keys - {at};
  }

  /** Deleting the waiting records of a key but the first. */
  method ClearOthers(db: Db, pending: seq<int>) returns (cleared: Db)
    requires Accounted(db) && pending != [] && forall k :: k in pending ==> k in db.records
    requires forall j, l :: 0 <= j < l < |pending| ==> pending[j] < pending[l]
    ensures Accounted(cleared) && cleared.head == db.head && cleared.tail == db.tail && cleared.used <= db.used
    ensures Subset(cleared.records, db.records)
    ensures forall k :: k in cleared.records <==> k in db.records && k !in pending[1..]
    ensures |cleared.records.Keys| == |db.records.Keys| - (|pending| - 1)
  {
    cleared := db;
    assert pending[1..1] == [];
    for i := 1 to |pending|
      invariant Accounted(cleared) && cleared.head == db.head && cleared.tail == db.tail && cleared.used <= db.used
      invariant Subset(cleared.records, db.records)
      invariant forall k :: k in cleared.records <==> k in db.records && k !in pending[1..i]
      invariant |cleared.records.Keys| == |db.records.Keys| - (i - 1)
    {
      var position := pending[i];
      assert position in pending && position !in pending[1..i];
      assert pending[1..i + 1] == pending[1..i] + [position];
      cleared := DropRecord(cleared, position);
    }
    assert pending[1..|pending|] == pending[1..];
  }

  /** Replacing the first waiting record of a key and deleting the others. */
  method ReplacePending(config: Config, db: Db, record: Record, pending: seq<int>, ghost now: int)
    returns (r: Result<Db, Error>, outcome: Outcome, ghost cleared: Db)
    requires Accounted(db) && pending != []
    requires forall k :: k in pending <==> IsWaiting(db.records, k, record.item.key, now)
    requires forall j, l :: 0 <= j < l < |pending| ==> pending[j] < pending[l]
    ensures outcome.Stored? && Coalesced(config, db, record, now, outcome.position, outcome.removed, cleared, r)
    ensures r.Ok? ==> Accounted(r.value) && (config.Fits(db.used) ==> config.Fits(r.value.used))
    ensures r.Ok? ==> Delivered(config, db, record, now, outcome.position, cleared, r.value)
  {
    var next := ClearOthers(db, pending);
    cleared := next;
    var target := pending[0];
    assert target in pending && target !in pending[1..];
    outcome := Stored(target, |pending| - 1);
    assert pending == [target] + pending[1..];
    assert FirstWaiting(db.records, target, record.item.key, now);
    assert Cleared(db, cleared, target, record.item.key, now);
    r := PutItem(config, next, target, record, config.EvictsHead(2 * (target - next.head) > next.tail - next.head));
    if r.Ok? {
      var trimmed := TrimBounds(r.value, []);
      r := Ok(trimmed);
    }
  }

  // ------------------------------------------------------------------- leases

  datatype Action = Ack | Nack | Renew

  /** reserve: leases the first record, in position order, that no current lease holds. */
  method ReserveFirst(db: Db, token: nat, leaseMs: int, now: int) returns (next: Db, position: Option<int>)
    requires Accounted(db)
    ensures position.None? ==> next == db && forall k :: k in db.records ==> Active(db.records[k], now)
    ensures position.Some? ==> var p := position.value;
      && p in db.records && !Active(db.records[p], now)
      && (forall k :: k in db.records && k < p ==> Active(db.records[k], now))
      && next == db.(records := db.records[p := db.records[p].(lease := Some(Lease(token, now + leaseMs)))])
    ensures Accounted(next)
  {
    for k := db.head to db.tail
      invariant forall q :: q in db.records && q < k ==> Active(db.records[q], now)
    {
      if k in db.records && !Active(db.records[k], now) {
        var record := db.records[k].(lease := Some(Lease(token, now + leaseMs)));
        StoredBytes(db.records, k, record, db.head, db.tail);
        return db.(records := db.records[k := record]), Some(k);
      }
    }
    next, position := db, None;
  }

  /** A later stored record of the same key. */
  ghost predicate Superseded(records: map<int, Record>, position: int)
    requires position in records
  {
    exists k :: k in records && k > position && records[k].item.key == records[position].item.key
  }

  /** In an ordered queue the superseded records, which a nack deletes, are those that
      some stored order of their key outdoes. */
  lemma SupersededMeansOutdone(records: map<int, Record>, position: int)
    requires Ordered(records) && position in records
    ensures Superseded(records, position) <==>
      (exists k :: k in records && records[k].item.key == records[position].item.key
                   && Less(records[position].item.order, records[k].item.order))
  {
  }

  /** What a handle's action does to the record it holds: an acknowledged record goes, a
      refused one goes when it is superseded and is free again otherwise, a renewed lease
      lasts longer. */
  ghost predicate Acted(a: map<int, Record>, b: map<int, Record>, p: int, token: nat, action: Action, now: int,
      leaseMs: int, coalescing: bool)
    requires p in a
  {
    if action.Ack? || (action.Nack? && coalescing && Superseded(a, p)) then b == a - {p}
    else b == a[p := a[p].(lease := if action.Nack? then None else Some(Lease(token, now + leaseMs)))]
  }

  /** Whether the lease `token` still holds the record at `position`. */
  predicate Holds(records: map<int, Record>, position: int, token: nat, now: int) {
    position in records && Active(records[position], now) && records[position].lease.value.token == token
  }

  /** The transaction of a handle: acts only while its own lease still holds the record. */
  method Settle(db: Db, position: int, token: nat, action: Action, now: int, leaseMs: int, coalescing: bool)
    returns (next: Db, ok: bool)
    requires Accounted(db)
    ensures Accounted(next) && next.used <= db.used
    ensures ok <==> Holds(db.records, position, token, now)
    ensures !ok ==> next == db
    ensures ok ==> Acted(db.records, next.records, position, token, action, now, leaseMs, coalescing)
    ensures coalescing && leaseMs > 0 && Ordered(db.records) ==> Ordered(next.records)
  {
    if !Holds(db.records, position, token, now) { return db, false; }
    ok := true;
    var record := db.records[position];
    var delete := action.Ack?;
    if action.Nack? && coalescing {
      var matches := Matching(db, record.item.key);
      delete := exists k :: k in matches && k > position;
    }
    if delete {
      DeletedBytes(db.records, position, db.head, db.tail);
      next := TrimBounds(db.(records := db.records - {position}, used := db.used - record.item.bytes), []);
    } else {
      var lease := if action.Renew? then Some(Lease(token, now + leaseMs)) else None;
      StoredBytes(db.records, position, record.(lease := lease), db.head, db.tail);
      next := db.(records := db.records[position := record.(lease := lease)]);
    }
  }

  // ------------------------------------------------- where the order is not kept

  /** Two rows of one byte each. */
  lemma TwoRows(records: map<int, Record>)
    requires records.Keys == {0, 1} && records[0].item.bytes == records[1].item.bytes == 1
    ensures Accounted(Db(0, 2, 2, records)) && Span(records, 0, 2) == [records[0], records[1]]
  {
    assert Sum(Sizes(records), 0, 2) == 1 + Sum(Sizes(records), 1, 2);
    assert Span(records, 1, 2) == [records[1]];
  }

  lemma TwoMatches(records: map<int, Record>)
    requires records.Keys == {0, 1} && records[0].item.key == records[1].item.key
    requires Less(records[0].item.order, records[1].item.order)
    ensures Matches(records, records[0].item.key, [0, 1]) && Latest(records, [0, 1]) == 1
  {
    Antisymmetric(records[0].item.order, records[1].item.order);
    assert [0, 1][..1] == [0] && 0 in [0, 1] && 1 in [0, 1];
    assert Latest(records, [0]) == 0;
  }

  /** Without waiting records and eviction, an item above the last one is appended. */
  lemma AppendPlan(config: Config, db: Db, record: Record, positions: seq<int>, now: int) returns (plan: Plan)
    requires Accounted(db) && !config.Evicts() && !config.CannotAdd(db.used, record.item.bytes)
    requires Matches(db.records, record.item.key, positions) && !TurnedDown(db.records, positions, record.item.order)
    requires !HasWaiting(db.records, record.item.key, now)
    ensures Planned(config, db, record, true, false, now, plan) && plan.outcome.Stored?
    ensures plan.done.Ok? && Accounted(plan.done.value)
  {
    var next, fromHead := StoreAtEdge(db, db.tail, record), config.EvictsHead(true);
    StoredAtEdge(db, db.tail, record);
    plan := Plan(Stored(db.tail, 0), Ok(next), positions, db);
    assert StoredBehind(config, db, next, record) by {
      assert Drop(Rows(db), 0, fromHead) == Rows(db);
      assert Minimal(config, Rows(db), 0, fromHead, record.item.bytes);
    }
    assert Coalesced(config, db, record, now, db.tail, 0, db, Ok(next));
    assert forall k :: k in db.records && db.records[k].item.key == record.item.key ==>
      !IsWaiting(db.records, k, record.item.key, now);
    assert Delivered(config, db, record, now, db.tail, db, next);
  }

  /** The only waiting record is replaced by an item of the same size. */
  lemma ReplacePlan(config: Config, db: Db, record: Record, positions: seq<int>, at: int, now: int) returns (plan: Plan)
    requires Accounted(db) && !config.CannotPut(db.used, record.item.bytes, record.item.bytes)
    requires Matches(db.records, record.item.key, positions) && !TurnedDown(db.records, positions, record.item.order)
    requires forall k :: IsWaiting(db.records, k, record.item.key, now) <==> k == at
    requires at in db.records && db.records[at].item.bytes == record.item.bytes
    ensures Planned(config, db, record, true, false, now, plan) && plan.outcome.Stored?
    ensures plan.done.Ok? && Accounted(plan.done.value)
  {
    var next := db.(records := db.records[at := record]);
    StoredBytes(db.records, at, record, db.head, db.tail);
    plan := Plan(Stored(at, 0), Ok(next), positions, db);
    assert IsWaiting(db.records, at, record.item.key, now);
    assert Cleared(db, db, at, record.item.key, now) && FirstWaiting(db.records, at, record.item.key, now);
    assert Coalesced(config, db, record, now, at, 0, db, Ok(next));
    assert Delivered(config, db, record, now, at, db, next);
  }

  /** Two processed records of a key whose orders both carry a sequence, and a new order
      without one: it is above the latest and below the first, so coalesceBy appends it and
      breaks the order. */
  lemma MixedBreaksOrder() returns (db: Db, record: Record, plan: Plan)
    ensures Accounted(db) && Ordered(db.records) && NoLapse(db.records, 0) && !Alike(db.records, record.item)
    ensures Planned(Config(None, OppositeEnd), db, record, true, false, 0, plan) && plan.outcome.Stored?
    ensures plan.done.Ok? && Accounted(plan.done.value) && !Ordered(plan.done.value.records)
  {
    var x, y, z := CycleOf(true, true, false);
    var held, config := Some(Lease(0, 1)), Config(None, OppositeEnd);
    var records := map[0 := Record(0, Item("", x, "", 1), held), 1 := Record(1, Item("", y, "", 1), held)];
    db, record := Db(0, 2, 2, records), Record(2, Item("", z, "", 1), None);
    TwoRows(records);
    Antisymmetric(x, y);
    Antisymmetric(y, z);
    Antisymmetric(z, x);
    TwoMatches(records);
    assert !HasWaiting(records, "", 0);
    plan := AppendPlan(config, db, record, [0, 1], 0);
    assert !InOrder(records, record.item, 0) by { assert Active(records[0], 0) && !Less(records[0].item.order, z); }
    CoalescedOrderExactly(config, db, record, true, false, 0, plan);
  }

  /** A lapsed lease before a current one: coalesceBy puts the new item into the lapsed
      record's place, before an older order that is being processed. */
  lemma LapseBreaksOrder() returns (db: Db, record: Record, plan: Plan)
    ensures Accounted(db) && Ordered(db.records) && !NoLapse(db.records, 5) && Alike(db.records, record.item)
    ensures Planned(Config(None, OppositeEnd), db, record, true, false, 5, plan) && plan.outcome.Stored?
    ensures plan.done.Ok? && Accounted(plan.done.value) && !Ordered(plan.done.value.records)
  {
    var first := Record(0, Item("", Order(None, 1, 0, 0), "", 1), Some(Lease(0, 5)));
    var second := Record(1, Item("", Order(None, 2, 0, 0), "", 1), Some(Lease(1, 9)));
    var records, config := map[0 := first, 1 := second], Config(None, OppositeEnd);
    db, record := Db(0, 2, 2, records), Record(2, Item("", Order(None, 3, 0, 0), "", 1), None);
    TwoRows(records);
    TwoMatches(records);
    assert IsWaiting(records, 0, "", 5) && !IsWaiting(records, 1, "", 5);
    plan := ReplacePlan(config, db, record, [0, 1], 0, 5);
    assert !InOrder(records, record.item, 5) by { assert Active(records[1], 5); }
    CoalescedOrderExactly(config, db, record, true, false, 5, plan);
  }
}
