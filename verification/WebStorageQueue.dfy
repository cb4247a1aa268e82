/** The queue kept in Web Storage, which has no transactions: every write touches
    one key, and the page may go away between any two writes. */
module WebStorageQueue {
  import opened Positions
  import opened Capacity
  import opened WebStorage

  // ------------------------------------------------------- the storage area

  /** The storage area. `trail` lists every store since the operation began, one more
      after each single-key write; a crash leaves any one of them behind. Every write
      must keep them all harmless: each amounts to an `allowed` item sequence. */
  class Storage {
    const config: Config
    var store: Store
    var trail: seq<Store>
    ghost var allowed: set<seq<Item>>

    ghost predicate Safe()
      reads this
    {
      |trail| > 0 && trail[|trail| - 1] == store
      && forall k :: 0 <= k < |trail| ==> Survives(config, trail[k], allowed)
    }

    constructor (config: Config)
      ensures this.config == config && store == Store(None, None, map[])
      ensures Recoverable(config, store) && Meaning(config, store) == []
    {
      this.config := config;
      store := Store(None, None, map[]);
      trail := [];
      new;
      LeanMeaning(config, store, 0, 0);
    }

    /** The start of an operation: so far a crash may only leave the present items. */
    method Begin()
      requires Recoverable(config, store)
      modifies this
      ensures Safe() && store == old(store) && trail == [store] && allowed == {Meaning(config, store)}
    {
      trail := [store];
      allowed := {Meaning(config, store)};
    }

    /** Names an item sequence that the next writes may amount to. */
    ghost method Aim(goal: seq<Item>)
      requires Safe()
      modifies this`allowed
      ensures Safe() && allowed == old(allowed) + {goal}
    {
      allowed := allowed + {goal};
    }

    /** The page dies: whatever write came last is what a reload finds. */
    method Crash()
      requires Safe()
      modifies this`store, this`trail
      ensures store in old(trail) && Survives(config, store, allowed)
    {
      var k :| 0 <= k < |trail|;
      store := trail[k];
      trail := [];
    }

    method Write(next: Store)
      requires Safe() && Survives(config, next, allowed)
      modifies this`store, this`trail
      ensures Safe() && store == next && trail == old(trail) + [next]
    {
      store := next;
      trail := trail + [next];
    }

    /** writeState */
    method WriteState(state: QState, keepEmpty: bool)
      requires Safe()
      requires Survives(config, store.(state := StateToWrite(state, keepEmpty)), allowed)
      modifies this`store, this`trail
      ensures Safe() && store == old(store).(state := StateToWrite(state, keepEmpty))
      ensures trail == old(trail) + [store]
    {
      Write(store.(state := StateToWrite(state, keepEmpty)));
    }

    method SetRow(id: int, row: Row)
      requires Safe() && Survives(config, store.(rows := store.rows[id := row]), allowed)
      modifies this`store, this`trail
      ensures Safe() && store == old(store).(rows := old(store).rows[id := row])
      ensures trail == old(trail) + [store]
    {
      Write(store.(rows := store.rows[id := row]));
    }

    method RemoveRow(id: int)
      requires Safe() && Survives(config, store.(rows := store.rows - {id}), allowed)
      modifies this`store, this`trail
      ensures Safe() && store == old(store).(rows := old(store).rows - {id})
      ensures trail == old(trail) + [store]
    {
      Write(store.(rows := store.rows - {id}));
    }

    method SetJournal(journal: Journal)
      requires Safe() && Survives(config, store.(journal := Some(journal)), allowed)
      modifies this`store, this`trail
      ensures Safe() && store == old(store).(journal := Some(journal))
      ensures trail == old(trail) + [store]
    {
      Write(store.(journal := Some(journal)));
    }

    method ClearJournal()
      requires Safe() && Survives(config, store.(journal := None), allowed)
      modifies this`store, this`trail
      ensures Safe() && store == old(store).(journal := None)
      ensures trail == old(trail) + [store]
    {
      Write(store.(journal := None));
    }
  }

  // --------------------------------------------------------------- the queue

  method SumBytes(rows: map<int, Row>, head: int, tail: int) returns (usedBytes: nat)
    requires head <= tail
    ensures usedBytes == BytesIn(rows, head, tail)
  {
    usedBytes := 0;
    for id := head to tail
      invariant usedBytes == BytesIn(rows, head, id)
    {
      SumSplit(Sizes(rows), head, id, id + 1);
      if id in rows {
        usedBytes := usedBytes + rows[id].Bytes();
      }
    }
  }

  class Queue {
    const storage: Storage

    constructor (storage: Storage)
      ensures this.storage == storage
    {
      this.storage := storage;
    }

    method RecoverHead(state: QState) returns (recovered: QState)
      requires storage.Safe() && Quiet(storage.store) && Anchored(storage.store, state)
      requires state.head <= state.tail && Bounded(state, storage.store.rows)
      modifies storage`store, storage`trail
      ensures storage.Safe() && Quiet(storage.store) && storage.store.rows == old(storage.store.rows)
      ensures Anchored(storage.store, recovered)
      ensures recovered.head <= recovered.tail == state.tail
      ensures Within(storage.store.rows, recovered.head, recovered.tail + 1)
      ensures recovered.head < recovered.tail ==> recovered.head in storage.store.rows
    {
      recovered := state;
      while recovered.head - 1 in storage.store.rows
        invariant state.head - 1 <= recovered.head <= recovered.tail == state.tail
        invariant recovered.head == state.head - 1 ==> recovered.head in storage.store.rows
        decreases recovered.head - state.head + 2
      {
        recovered := recovered.(head := recovered.head - 1);
      }
      while recovered.head < recovered.tail && recovered.head !in storage.store.rows
        invariant recovered.head <= recovered.tail == state.tail
        invariant Within(storage.store.rows, recovered.head, recovered.tail + 1)
        invariant recovered.tail in storage.store.rows && recovered != state ==> recovered.head in storage.store.rows
        decreases recovered.tail - recovered.head
      {
        recovered := recovered.(head := recovered.head + 1);
      }
      if recovered.head != state.head || recovered.tail != state.tail {
        WriteQuietState(recovered, false);
      }
    }

    method RecoverTail(state: QState) returns (recovered: QState)
      requires storage.Safe() && Quiet(storage.store) && state.head <= state.tail && Anchored(storage.store, state)
      requires Within(storage.store.rows, state.head, state.tail + 1)
      requires state.head < state.tail ==> state.head in storage.store.rows
      modifies storage`store, storage`trail
      ensures storage.Safe() && Quiet(storage.store) && storage.store.rows == old(storage.store.rows)
      ensures Tight(storage.store.rows, recovered.head, recovered.tail) && Anchored(storage.store, recovered)
    {
      recovered := state;
      while recovered.tail in storage.store.rows
        invariant state.head == recovered.head <= state.tail <= recovered.tail <= state.tail + 1
        invariant recovered.tail == state.tail + 1 ==> state.tail in storage.store.rows
        decreases state.tail + 2 - recovered.tail
      {
        recovered := recovered.(tail := recovered.tail + 1);
      }
      while recovered.tail > recovered.head && recovered.tail - 1 !in storage.store.rows
        invariant state.head == recovered.head <= recovered.tail
        invariant Within(storage.store.rows, recovered.head, recovered.tail)
        decreases recovered.tail - recovered.head
      {
        recovered := recovered.(tail := recovered.tail - 1);
      }
      if recovered.head != state.head || recovered.tail != state.tail {
        WriteQuietState(recovered, false);
      }
    }

    method RecoverUsage(state: QState) returns (recovered: QState)
      requires storage.Safe() && Quiet(storage.store) && Tight(storage.store.rows, state.head, state.tail)
      requires Anchored(storage.store, state)
      modifies storage`store, storage`trail
      ensures storage.Safe() && Repaired(storage.store, recovered, None)
      ensures storage.store.rows == old(storage.store.rows)
    {
      var usedBytes := SumBytes(storage.store.rows, state.head, state.tail);
      recovered := state.(used := usedBytes);
      if usedBytes != state.used {
        WriteQuietState(recovered, false);
      }
      TightIsRepaired(storage.store, recovered);
    }

    /** writeState while no journal is open: only the bounds change, not the meaning. */
    method WriteQuietState(state: QState, keepEmpty: bool)
      requires storage.Safe() && Quiet(storage.store)
      requires Bounded(NormalizeState(StateToWrite(state, keepEmpty)), storage.store.rows)
      modifies storage`store, storage`trail
      ensures storage.Safe() && Quiet(storage.store)
      ensures storage.store == old(storage.store).(state := StateToWrite(state, keepEmpty))
      ensures Meaning(storage.config, storage.store) == old(Meaning(storage.config, storage.store))
    {
      SameFinalRows(storage.config, storage.store, storage.store.(state := StateToWrite(state, keepEmpty)));
      storage.WriteState(state, keepEmpty);
    }

    /** writeItem without eviction: the row, then the state; refuses what the limit has no
        room for. */
    method WriteItem(id: int, item: Item, state: QState) returns (r: Result<QState, Error>)
      requires storage.Safe() && state.head <= id < state.tail && state.used >= 0
      requires storage.config.Fits(item.bytes) ==>
        var s := storage.store.(rows := storage.store.rows[id := Envelope(item)]);
        Survives(storage.config, s, storage.allowed)
        && (s.journal.None? ==> Within(s.rows, state.head, state.tail))
      modifies storage`store, storage`trail
      ensures storage.Safe()
      ensures r == Err(ItemTooLarge) <==> !storage.config.Fits(item.bytes)
      ensures r.Err? ==> storage.store == old(storage.store) && r.error in {ItemTooLarge, CapacityExceeded}
      ensures r.Err? ==> !storage.config.Fits(state.used + item.bytes)
      ensures id !in old(storage.store.rows) && !storage.config.Fits(state.used + item.bytes) ==> r.Err?
      ensures r.Ok? ==> r.value.head == state.head && r.value.tail == state.tail
      ensures r.Ok? ==> storage.store == old(storage.store).(
        state := Some(r.value), rows := old(storage.store).rows[id := Envelope(item)])
    {
      if !storage.config.Fits(item.bytes) { return Err(ItemTooLarge); }
      var previousByteSize := if id in storage.store.rows then storage.store.rows[id].Bytes() else 0;
      var delta := item.bytes - previousByteSize;
      if delta > 0 && !storage.config.Fits(state.used + delta) {
        return Err(CapacityExceeded);
      }
      storage.SetRow(id, Envelope(item));
      var used := state.used - previousByteSize + item.bytes;
      var next := state.(used := if used < 0 then 0 else used);
      if storage.store.journal.None? {
        WriteQuietState(next, true);
      } else {
        storage.WriteState(next, true);
      }
      r := Ok(next);
    }

    /** moveItem under an open journal: two writes, or none when the source is a hole. */
    method MoveItem(from: int, to: int)
      requires storage.Safe() && storage.store.journal.Some? && from != to
      requires from in storage.store.rows ==>
        var rows := storage.store.rows;
        && Survives(storage.config, storage.store.(rows := rows[to := rows[from]]), storage.allowed)
        && Survives(storage.config, storage.store.(rows := Moved(rows, from, to)), storage.allowed)
      modifies storage`store, storage`trail
      ensures storage.Safe()
      ensures storage.store == old(storage.store).(rows := Moved(old(storage.store.rows), from, to))
    {
      if from !in storage.store.rows { return; }
      storage.SetRow(to, storage.store.rows[from]);
      storage.RemoveRow(from);
    }

    /** One turn of either journal: move the row into the cursor, then store the next cursor. */
    method MoveOne(current: Journal) returns (next: Journal)
      requires storage.Safe() && storage.store.journal == Some(current)
      requires if current.Insert? then current.cursor > current.slot else current.cursor < current.tail
      modifies storage`store, storage`trail
      ensures storage.Safe() && storage.store.journal == Some(next)
      ensures next == if current.Insert? then current.(cursor := current.cursor - 1)
        else current.(cursor := current.cursor + 1)
      ensures storage.store.state == old(storage.store.state)
      ensures FinalRows(storage.store) == old(FinalRows(storage.store))
    {
      MovePlays(storage.config, storage.store, current);
      var to := current.cursor;
      var from := if current.Insert? then to - 1 else to + 1;
      MoveItem(from, to);
      next := current.(cursor := from);
      storage.SetJournal(next);
    }

    /** Plays an insert journal to its end and closes it. */
    method FinishInsert(operation: Journal) returns (state: QState)
      requires storage.Safe() && operation.Insert? && storage.store.journal == Some(operation)
      modifies storage`store, storage`trail
      ensures storage.Safe() && Quiet(storage.store) && Anchored(storage.store, state)
      ensures storage.store.rows == old(FinalRows(storage.store))
      ensures state.head == operation.head && state.tail == operation.tail && state.head < state.tail
      ensures Within(storage.store.rows, state.head, state.tail)
      ensures Bounded(NormalizeState(storage.store.state), storage.store.rows)
    {
      var current := operation;
      state := QState(current.head, current.tail, current.used);
      SameFinalRows(storage.config, storage.store, storage.store.(state := StateToWrite(state, false)));
      storage.WriteState(state, false);
      while current.cursor > current.slot
        invariant storage.Safe() && storage.store.journal == Some(current) && current.Insert?
        invariant current == operation.(cursor := current.cursor)
        invariant JournalOk(storage.config, current, storage.store.rows)
        invariant FinalRows(storage.store) == old(FinalRows(storage.store))
        decreases current.cursor - current.slot
      {
        current := MoveOne(current);
      }
      var written := storage.store.(rows := storage.store.rows[current.slot := Envelope(current.item)]);
      SameFinalRows(storage.config, storage.store, written);
      var r := WriteItem(current.slot, current.item, state);
      SameFinalRows(storage.config, storage.store, storage.store.(journal := None));
      storage.ClearJournal();
      state := r.value;
      WriteQuietState(state, false);
    }

    /** Plays a remove journal to its end and closes it. */
    method FinishRemove(operation: Journal) returns (state: QState)
      requires storage.Safe() && operation.Remove? && storage.store.journal == Some(operation)
      modifies storage`store, storage`trail
      ensures storage.Safe() && Quiet(storage.store) && Anchored(storage.store, state)
      ensures storage.store.rows == old(FinalRows(storage.store))
      ensures state.head == operation.head && state.tail == operation.tail && state.head <= state.tail
      ensures Within(storage.store.rows, state.head, state.tail)
    {
      var current := operation;
      state := QState(current.head, current.tail, current.used);
      SameFinalRows(storage.config, storage.store, storage.store.(state := StateToWrite(state, true)));
      storage.WriteState(state, true);
      while current.cursor < current.tail
        invariant storage.Safe() && storage.store.journal == Some(current) && current.Remove?
        invariant current == operation.(cursor := current.cursor)
        invariant storage.store.state == Some(state)
        invariant JournalOk(storage.config, current, storage.store.rows)
        invariant FinalRows(storage.store) == old(FinalRows(storage.store))
        decreases current.tail - current.cursor
      {
        current := MoveOne(current);
      }
      SameFinalRows(storage.config, storage.store,
        storage.store.(rows := storage.store.rows - {current.tail}));
      storage.RemoveRow(current.tail);
      SameFinalRows(storage.config, storage.store, storage.store.(journal := None));
      storage.ClearJournal();
      WriteQuietState(state, false);
    }

    // ------------------------------------------------------------------ eviction

    /** trimHead and trimTail: one end passes over holes, but not over the reserved slot. */
    method Trim(state: QState, fromHead: bool, reserved: Option<int>) returns (trimmed: QState)
      requires state.head <= state.tail && Within(storage.store.rows, state.head, state.tail)
      requires Reserved(storage.store, state, fromHead, reserved)
      ensures trimmed == if fromHead then state.(head := trimmed.head) else state.(tail := trimmed.tail)
      ensures state.head <= trimmed.head <= trimmed.tail <= state.tail
      ensures Within(storage.store.rows, trimmed.head, trimmed.tail)
      ensures Reserved(storage.store, trimmed, fromHead, reserved)
      ensures trimmed.head < trimmed.tail ==>
        EndOf(trimmed, fromHead) in storage.store.rows || reserved == Some(EndOf(trimmed, fromHead))
      ensures EndOf(state, fromHead) in storage.store.rows ==> trimmed == state
    {
      trimmed := state;
      if fromHead {
        while trimmed.head < trimmed.tail && reserved != Some(trimmed.head) && trimmed.head !in storage.store.rows
          invariant trimmed == state.(head := trimmed.head) && state.head <= trimmed.head <= trimmed.tail
          invariant Within(storage.store.rows, trimmed.head, trimmed.tail)
          invariant Reserved(storage.store, trimmed, true, reserved)
          invariant state.head in storage.store.rows ==> trimmed == state
          decreases trimmed.tail - trimmed.head
        {
          trimmed := trimmed.(head := trimmed.head + 1);
        }
      } else {
        while trimmed.tail > trimmed.head && reserved != Some(trimmed.tail - 1)
          && trimmed.tail - 1 !in storage.store.rows
          invariant trimmed == state.(tail := trimmed.tail) && trimmed.head <= trimmed.tail <= state.tail
          invariant Within(storage.store.rows, trimmed.head, trimmed.tail)
          invariant Reserved(storage.store, trimmed, false, reserved)
          invariant state.tail - 1 in storage.store.rows ==> trimmed == state
          decreases trimmed.tail - trimmed.head
        {
          trimmed := trimmed.(tail := trimmed.tail - 1);
        }
      }
    }

    /** The scan for the outermost row of one end. */
    method FindEnd(state: QState, fromHead: bool, reserved: Option<int>) returns (found: Option<int>)
      requires Repaired(storage.store, state, reserved) && Reserved(storage.store, state, fromHead, reserved)
      ensures found.None? <==> storage.store.rows == map[]
      ensures found.Some? ==> found.value in storage.store.rows && found.value == EndOf(state, fromHead)
    {
      var k := 0;
      while k < state.tail - state.head
        invariant 0 <= k <= state.tail - state.head
        invariant forall q :: q in storage.store.rows ==>
          if fromHead then state.head + k <= q else q < state.tail - k
        invariant k > 0 ==> EndOf(state, fromHead) !in storage.store.rows
      {
        var id := if fromHead then state.head + k else state.tail - 1 - k;
        if reserved != Some(id) && id in storage.store.rows { return Some(id); }
        k := k + 1;
      }
      assert forall q :: q !in storage.store.rows;
      found := None;
    }

    /** evictOneFromHead and evictOneFromTail: deletes the outermost row of one end. */
    method EvictOne(state: QState, fromHead: bool, reserved: Option<int>) returns (next: QState, evicted: bool)
      requires storage.Safe() && Repaired(storage.store, state, reserved)
      requires Reserved(storage.store, state, fromHead, reserved)
      modifies storage`store, storage`trail, storage`allowed
      ensures storage.Safe() && Repaired(storage.store, next, reserved)
      ensures Reserved(storage.store, next, fromHead, reserved)
      ensures evicted <==> old(storage.store.rows) != map[]
      ensures !evicted ==> next == state && storage.store == old(storage.store)
      ensures !evicted ==> storage.allowed == old(storage.allowed)
      ensures evicted ==>
        && EndOf(state, fromHead) in old(storage.store.rows)
        && storage.store.rows == old(storage.store.rows) - {EndOf(state, fromHead)}
        && storage.allowed == old(storage.allowed) + {Meaning(storage.config, storage.store)}
      ensures evicted ==> if fromHead then state.head < next.head && next.tail == state.tail
        else next.head == state.head && next.tail < state.tail
    {
      next := Trim(state, fromHead, reserved);
      var found := FindEnd(next, fromHead, reserved);
      if found.None? { return next, false; }
      next := DeleteEnd(next, found.value, fromHead, reserved);
      evicted := true;
    }

    /** Its writes: the row goes, then the state follows. */
    method DeleteEnd(state: QState, at: int, fromHead: bool, reserved: Option<int>) returns (next: QState)
      requires storage.Safe() && Repaired(storage.store, state, reserved)
      requires Reserved(storage.store, state, fromHead, reserved)
      requires at == EndOf(state, fromHead) && at in storage.store.rows
      modifies storage`store, storage`trail, storage`allowed
      ensures storage.Safe() && Repaired(storage.store, next, reserved)
      ensures Reserved(storage.store, next, fromHead, reserved)
      ensures storage.store.rows == old(storage.store.rows) - {at}
      ensures storage.allowed == old(storage.allowed) + {Meaning(storage.config, storage.store)}
      ensures if fromHead then state.head < next.head && next.tail == state.tail
        else next.head == state.head && next.tail < state.tail
    {
      var stored := storage.store.rows[at];
      ghost var rows := storage.store.rows;
      storage.Aim(Meaning(storage.config, storage.store.(rows := rows - {at})));
      EvictedBytes(rows, at, state.head, state.tail);
      storage.RemoveRow(at);
      var used := state.used - stored.Bytes();
      var shrunk := state.(used := if used < 0 then 0 else used);
      next := Trim(shrunk, fromHead, reserved);
      EndsStay(rows, state, next, fromHead, reserved);
      SameBounds(storage.store.rows, state.head, state.tail, next.head, next.tail);
      WriteQuietState(next, false);
    }

    /** The eviction loop, until the target is met. */
    method EvictWhile(state: QState, required: nat, target: int, fromHead: bool, reserved: Option<int>)
      returns (next: QState)
      requires storage.Safe() && Repaired(storage.store, state, reserved) && required <= target
      requires Reserved(storage.store, state, fromHead, reserved)
      modifies storage`store, storage`trail, storage`allowed
      ensures storage.Safe() && Repaired(storage.store, next, reserved)
      ensures Reserved(storage.store, next, fromHead, reserved)
      ensures Evicting(old(storage.store.rows), state, storage.store.rows, next, target - required, fromHead)
      ensures storage.store.rows == Kept(old(storage.store.rows), state.head, state.tail, target - required, fromHead)
      ensures next.used + required <= target
      ensures old(storage.allowed) <= storage.allowed && forall m :: m in storage.allowed - old(storage.allowed) ==>
        Passed(storage.config, old(storage.store.rows), state, EdgeOf(next, fromHead), fromHead, m)
    {
      ghost var rows, room := storage.store.rows, target - required;
      next := state;
      EvictingNone(rows, state, room, fromHead);
      while next.used + required > target
        invariant storage.Safe() && Repaired(storage.store, next, reserved)
        invariant Reserved(storage.store, next, fromHead, reserved)
        invariant Evicting(rows, state, storage.store.rows, next, room, fromHead)
        invariant old(storage.allowed) <= storage.allowed && forall m :: m in storage.allowed - old(storage.allowed) ==>
          Passed(storage.config, rows, state, EdgeOf(next, fromHead), fromHead, m)
        decreases next.tail - next.head
      {
        var evicted;
        next, evicted := EvictTurn(rows, state, old(storage.allowed), next, room, fromHead, reserved);
        if !evicted { break; }
      }
      EvictingDone(rows, state, storage.store.rows, next, room, fromHead);
    }

    /** One turn of the loop. */
    method EvictTurn(ghost rows: map<int, Row>, ghost state: QState, ghost past: set<seq<Item>>, now: QState,
        ghost room: nat, fromHead: bool, reserved: Option<int>)
      returns (next: QState, evicted: bool)
      requires storage.Safe() && Repaired(storage.store, now, reserved)
      requires Reserved(storage.store, now, fromHead, reserved)
      requires Within(rows, state.head, state.tail)
      requires Evicting(rows, state, storage.store.rows, now, room, fromHead) && now.used > room
      requires past <= storage.allowed && forall m :: m in storage.allowed - past ==>
        Passed(storage.config, rows, state, EdgeOf(now, fromHead), fromHead, m)
      modifies storage`store, storage`trail, storage`allowed
      ensures evicted && storage.Safe() && Repaired(storage.store, next, reserved)
      ensures Reserved(storage.store, next, fromHead, reserved)
      ensures Evicting(rows, state, storage.store.rows, next, room, fromHead)
      ensures next.tail - next.head < now.tail - now.head
      ensures past <= storage.allowed && forall m :: m in storage.allowed - past ==>
        Passed(storage.config, rows, state, EdgeOf(next, fromHead), fromHead, m)
    {
      ghost var was := storage.store.rows;
      if was == map[] { SumEmpty(Sizes(was), now.head, now.tail); }
      next, evicted := EvictOne(now, fromHead, reserved);
      EvictingMore(rows, state, was, now, storage.store.rows, next, room, fromHead);
      MeaningWithin(storage.config, storage.store, state.head, state.tail);
      assert Passed(storage.config, rows, state, EdgeOf(next, fromHead), fromHead,
        Reopened(storage.config, Cut(rows, EdgeOf(next, fromHead), fromHead), state));
      forall m | m in storage.allowed - past
        ensures Passed(storage.config, rows, state, EdgeOf(next, fromHead), fromHead, m)
      {
        if m in old(storage.allowed) {
          PassedFurther(storage.config, rows, state, EdgeOf(now, fromHead), EdgeOf(next, fromHead), fromHead, m);
        }
      }
    }

    /** evictToFit: refuses what cannot fit, otherwise evicts what has to go for it. */
    method EvictToFit(state: QState, required: nat, fromHead: bool, reserved: Option<int>)
      returns (r: Result<QState, Error>)
      requires storage.Safe() && Repaired(storage.store, state, reserved)
      requires Reserved(storage.store, state, fromHead, reserved)
      requires Lean(storage.config, storage.store.rows, state.head, state.tail)
      modifies storage`store, storage`trail, storage`allowed
      ensures storage.Safe()
      ensures r.Err? <==> storage.config.CannotAdd(state.used, required)
      ensures r.Err? ==> storage.store == old(storage.store) && storage.allowed == old(storage.allowed)
      ensures r.Ok? ==> Repaired(storage.store, r.value, reserved) && Inside(state, r.value, fromHead)
      ensures r.Ok? ==> Reserved(storage.store, r.value, fromHead, reserved)
      ensures r.Ok? ==> Made(storage.config, old(storage.store.rows), state, storage.store.rows, r.value, required,
        fromHead)
      ensures r.Ok? ==> old(storage.allowed) <= storage.allowed
      ensures r.Ok? ==> forall m :: m in storage.allowed - old(storage.allowed) ==>
        Between(m, ItemsIn(old(storage.store.rows), state.head, state.tail),
          ItemsIn(storage.store.rows, state.head, state.tail), fromHead)
    {
      if storage.config.limit.None? { return Ok(state); }
      var max := storage.config.limit.value;
      if required > max { return Err(ItemTooLarge); }
      if storage.config.policy.Reject? {
        if state.used + required > max { return Err(CapacityExceeded); }
        return Ok(state);
      }
      RoomFor(storage.config, required);
      ghost var rows := storage.store.rows;
      var target := storage.config.Target(required);
      var next := EvictWhile(state, required, target, fromHead, reserved);
      OperationsPassed(storage.config, rows, state, storage.store.rows, next, target - required, fromHead,
        storage.allowed - old(storage.allowed));
      // The second capacity check is never due.
      assert next.used + required <= max;
      r := Ok(next);
    }

    /** recoverByteLimit: evicts down to the headroom. Cut anywhere, it amounts to the same. */
    method RecoverByteLimit(state: QState) returns (next: QState)
      requires storage.Safe() && Repaired(storage.store, state, None)
      requires Meaning(storage.config, storage.store) in storage.allowed
      modifies storage`store, storage`trail, storage`allowed
      ensures storage.Safe() && Repaired(storage.store, next, None)
      ensures storage.allowed == old(storage.allowed)
      ensures storage.store.rows == old(Opened(storage.config, storage.store))
      ensures Inside(state, next, storage.config.EvictsHead(true))
      ensures Lean(storage.config, storage.store.rows, next.head, next.tail)
    {
      MeaningWithin(storage.config, storage.store, state.head, state.tail);
      next := state;
      if storage.config.Evicts() {
        RoomFor(storage.config, 0);
        ghost var rows := storage.store.rows;
        var fromHead := storage.config.EvictsHead(true);
        next := EvictWhile(state, 0, storage.config.Target(0), fromHead, None);
        forall m | m in storage.allowed ensures m in old(storage.allowed) {
          if m !in old(storage.allowed) {
            RecoveryPassed(storage.config, rows, state, storage.store.rows, next, m);
          }
        }
        assert storage.allowed == old(storage.allowed);
      }
    }

    /** readState: finishes the open journal, then repairs the bounds and the byte count, and
        makes the rows fit. */
    method ReadState() returns (state: QState)
      requires storage.Safe()
      modifies storage`store, storage`trail, storage`allowed
      ensures storage.Safe() && Repaired(storage.store, state, None)
      ensures storage.allowed == old(storage.allowed)
      ensures storage.store.rows == old(Opened(storage.config, storage.store))
      ensures Lean(storage.config, storage.store.rows, state.head, state.tail)
      ensures Meaning(storage.config, storage.store) == old(Meaning(storage.config, storage.store))
      ensures Meaning(storage.config, storage.store) == ItemsIn(storage.store.rows, state.head, state.tail)
      ensures state.used == old(Usage(storage.config, storage.store))
    {
      ghost var start := storage.store;
      state := NormalizeState(storage.store.state);
      match storage.store.journal {
        case None => storage.ClearJournal();
        case Some(operation) =>
          if operation.Insert? {
            state := FinishInsert(operation);
          } else {
            state := FinishRemove(operation);
          }
      }
      state := RecoverHead(state);
      state := RecoverTail(state);
      state := RecoverUsage(state);
      SameFinalRows(storage.config, start, storage.store);
      ghost var full := state;
      state := RecoverByteLimit(state);
      LeanMeaning(storage.config, storage.store, state.head, state.tail);
      MeaningWithin(storage.config, start, full.head, full.tail);
      SameBounds(storage.store.rows, full.head, full.tail, state.head, state.tail);
    }

    // ---------------------------------------------------------------- operations

    /** The bounds grow by an unoccupied slot at one end, for the item that follows. */
    method Reserve(state: QState, atHead: bool) returns (next: QState)
      requires storage.Safe() && Repaired(storage.store, state, None)
      modifies storage`store, storage`trail
      ensures storage.Safe() && storage.store.rows == old(storage.store.rows)
      ensures Repaired(storage.store, next, Some(EndOf(next, atHead))) && next.used == state.used
      ensures Reserved(storage.store, next, !atHead, Some(EndOf(next, atHead)))
      ensures Meaning(storage.config, storage.store) == old(Meaning(storage.config, storage.store))
    {
      RepairedIsTight(storage.store, state);
      next := if atHead then state.(head := state.head - 1) else state.(tail := state.tail + 1);
      SameBounds(storage.store.rows, state.head, state.tail, next.head, next.tail);
      WriteQuietState(next, false);
    }

    /** The reserved slot gets its row. */
    method WriteReserved(state: QState, item: Item, atHead: bool) returns (r: Result<int, Error>)
      requires storage.Safe() && Repaired(storage.store, state, Some(EndOf(state, atHead)))
      requires Reserved(storage.store, state, !atHead, Some(EndOf(state, atHead)))
      requires storage.config.Fits(state.used + item.bytes)
      requires storage.config.Evicts() ==> state.used <= storage.config.Room(item.bytes)
      modifies storage`store, storage`trail, storage`allowed
      ensures storage.Safe() && r == Ok(state.tail - state.head) && Spans(storage.store.rows, r.value)
      ensures StoredItems(storage.store)
           == Grown(ItemsIn(old(storage.store.rows), state.head, state.tail), item, atHead)
      ensures Meaning(storage.config, storage.store) == Lasted(storage.config, item, StoredItems(storage.store))
      ensures storage.config.Fits(StoredBytes(storage.store))
      ensures storage.allowed == old(storage.allowed) + {Meaning(storage.config, storage.store)}
    {
      var id := EndOf(state, atHead);
      ghost var written := storage.store.(rows := storage.store.rows[id := Envelope(item)]);
      GrownMeaning(storage.config, storage.store, state, item, atHead);
      WrittenIsTight(storage.store, state, atHead, Envelope(item));
      storage.Aim(Meaning(storage.config, written));
      var w := WriteItem(id, item, state);
      SameFinalRows(storage.config, written, storage.store);
      r := Ok(state.tail - state.head);
    }

    /** push and unshift on a repaired queue when rows go from the other end: they go once
        the slot of the new item is reserved. */
    method AddAcross(state: QState, item: Item, atHead: bool) returns (r: Result<int, Error>)
      requires storage.Safe() && Repaired(storage.store, state, None)
      requires Meaning(storage.config, storage.store) in storage.allowed
      requires Lean(storage.config, storage.store.rows, state.head, state.tail)
      requires storage.config.EvictsHead(!atHead) == !atHead
      modifies storage`store, storage`trail, storage`allowed
      ensures storage.Safe()
      ensures r.Err? <==> storage.config.CannotAdd(state.used, item.bytes)
      ensures r.Err? ==> storage.allowed == old(storage.allowed) && storage.store.rows == old(storage.store.rows)
      ensures r.Err? ==> Meaning(storage.config, storage.store) == old(Meaning(storage.config, storage.store))
      ensures r.Err? ==> Quiet(storage.store)
      ensures r.Ok? ==> Enlarged(storage.config, old(storage.store.rows), state, old(storage.allowed), storage.store,
        storage.allowed, item, atHead)
      ensures r.Ok? ==> Spans(storage.store.rows, r.value)
    {
      ghost var rows, left := storage.store.rows, storage.store.rows;
      var next := Reserve(state, atHead);
      ghost var wide := next;
      SameBounds(rows, state.head, state.tail, wide.head, wide.tail);
      var fitted := EvictToFit(next, item.bytes, !atHead, Some(EndOf(next, atHead)));
      if fitted.Err? { return Err(fitted.error); }
      next, left := fitted.value, storage.store.rows;
      SameSpared(storage.config, rows, state.head, state.tail, wide.head, wide.tail, item.bytes, !atHead);
      SameBounds(left, state.head, state.tail, wide.head, wide.tail);
      SameBounds(left, next.head, next.tail, wide.head, wide.tail);
      r := WriteReserved(next, item, atHead);
    }

    /** The same when rows go from the end of the new item: they go first, and the eviction
        that writing the item starts with finds nothing left to do. */
    method AddAlong(state: QState, item: Item, atHead: bool) returns (r: Result<int, Error>)
      requires storage.Safe() && Repaired(storage.store, state, None)
      requires Lean(storage.config, storage.store.rows, state.head, state.tail)
      requires storage.config.EvictsHead(!atHead) == atHead
      modifies storage`store, storage`trail, storage`allowed
      ensures storage.Safe()
      ensures r.Err? <==> storage.config.CannotAdd(state.used, item.bytes)
      ensures r.Err? ==> storage.allowed == old(storage.allowed) && storage.store == old(storage.store)
      ensures r.Ok? ==> Enlarged(storage.config, old(storage.store.rows), state, old(storage.allowed), storage.store,
        storage.allowed, item, atHead)
      ensures r.Ok? ==> Spans(storage.store.rows, r.value)
    {
      var fitted := EvictToFit(state, item.bytes, atHead, None);
      if fitted.Err? { return Err(fitted.error); }
      ghost var left, tight := storage.store.rows, fitted.value;
      var next := Reserve(fitted.value, atHead);
      assert storage.config.Evicts() ==> next.used + item.bytes <= storage.config.Target(item.bytes);
      SameBounds(left, state.head, state.tail, tight.head, tight.tail);
      SameBounds(left, tight.head, tight.tail, next.head, next.tail);
      r := WriteReserved(next, item, atHead);
    }

    /** Both, as the direction of the eviction asks. */
    method Add(item: Item, atHead: bool) returns (r: Result<int, Error>)
      requires Recoverable(storage.config, storage.store)
      modifies storage
      ensures storage.Safe()
      ensures Added(storage.config, old(storage.store), storage.store, storage.allowed, item, atHead, r)
    {
      ghost var s := storage.store;
      storage.Begin();
      var state := ReadState();
      ghost var rows := storage.store.rows;
      MeaningWithin(storage.config, storage.store, state.head, state.tail);
      if !storage.config.Fits(item.bytes) { return Err(ItemTooLarge); }
      if storage.config.EvictsHead(!atHead) == atHead {
        r := AddAlong(state, item, atHead);
      } else {
        r := AddAcross(state, item, atHead);
      }
      if r.Err? {
        MeaningWithin(storage.config, storage.store, state.head, state.tail);
      } else {
        AddedFrom(storage.config, s, state, rows, storage.store, storage.allowed, item, atHead, r.value);
      }
    }

    /** Stores an item behind the last row that is left, or refuses it. */
    method Push(item: Item) returns (r: Result<int, Error>)
      requires Recoverable(storage.config, storage.store)
      modifies storage
      ensures storage.Safe()
      ensures Added(storage.config, old(storage.store), storage.store, storage.allowed, item, false, r)
    {
      r := Add(item, false);
    }

    /** Stores an item before the first row that is left, or refuses it. */
    method Unshift(item: Item) returns (r: Result<int, Error>)
      requires Recoverable(storage.config, storage.store)
      modifies storage
      ensures storage.Safe()
      ensures Added(storage.config, old(storage.store), storage.store, storage.allowed, item, true, r)
    {
      r := Add(item, true);
    }

    /** Deletes the row at `id`, just outside the bounds of `state` that are stored already,
        and corrects the byte count. */
    method DropRow(state: QState, id: int) returns (next: QState)
      requires storage.Safe() && Quiet(storage.store) && state.head <= state.tail
      requires Within(storage.store.rows - {id}, state.head, state.tail)
      requires Lean(storage.config, storage.store.rows - {id}, state.head, state.tail)
      requires ItemsIn(storage.store.rows - {id}, state.head, state.tail) in storage.allowed
      requires NormalizeState(storage.store.state).head == state.head
      requires NormalizeState(storage.store.state).tail == state.tail
      modifies storage`store, storage`trail
      ensures storage.Safe() && Quiet(storage.store) && storage.store.rows == old(storage.store.rows) - {id}
      ensures next.head == state.head && next.tail == state.tail
      ensures next.head == next.tail ==> storage.store == Store(None, None, storage.store.rows)
      ensures Meaning(storage.config, storage.store) == ItemsIn(storage.store.rows, next.head, next.tail)
    {
      var stored := At(storage.store.rows, id);
      LeanMeaning(storage.config, storage.store.(rows := storage.store.rows - {id}), state.head, state.tail);
      storage.RemoveRow(id);
      var used := if stored.Some? then state.used - stored.value.Bytes() else state.used;
      next := state.(used := if used < 0 then 0 else used);
      WriteQuietState(next, false);
    }

    /** What shift and pop keep from turn to turn. */
    ghost predicate Taking(state: QState, items: seq<Item>)
      reads storage
    {
      && storage.Safe() && Quiet(storage.store) && state.head <= state.tail
      && Within(storage.store.rows, state.head, state.tail)
      && Lean(storage.config, storage.store.rows, state.head, state.tail)
      && Meaning(storage.config, storage.store) == items == ItemsIn(storage.store.rows, state.head, state.tail)
    }

    /** One turn of shift: the head moves past its row, then the row goes. */
    method DropFirst(state: QState, ghost items: seq<Item>) returns (next: QState)
      requires Taking(state, items) && state.head < state.tail
      requires items in storage.allowed && Rest(items) in storage.allowed
      modifies storage`store, storage`trail
      ensures storage.store.rows == old(storage.store.rows) - {state.head}
      ensures next.head == state.head + 1 && next.tail == state.tail
      ensures next.head == next.tail ==> storage.store == Store(None, None, storage.store.rows)
      ensures var first := ItemAt(old(storage.store.rows), state.head);
        if first == [] then Taking(next, items)
        else items != [] && first == [items[0]] && Taking(next, Rest(items))
    {
      FirstRow(storage.store.rows, state.head, state.tail);
      next := state.(head := state.head + 1);
      WriteQuietState(next, true);
      next := DropRow(next, state.head);
    }

    /** One turn of pop. */
    method DropLast(state: QState, ghost items: seq<Item>) returns (next: QState)
      requires Taking(state, items) && state.head < state.tail && state.head in storage.store.rows
      requires items in storage.allowed && Front(items) in storage.allowed
      modifies storage`store, storage`trail
      ensures storage.store.rows == old(storage.store.rows) - {state.tail - 1}
      ensures next.head == state.head && next.tail == state.tail - 1
      ensures next.head == next.tail ==> storage.store == Store(None, None, storage.store.rows)
      ensures var last := ItemAt(old(storage.store.rows), state.tail - 1);
        if last == [] then Taking(next, items)
        else items != [] && last == [items[|items| - 1]] && Taking(next, Front(items))
    {
      LastRow(storage.store.rows, state.head, state.tail);
      next := state.(tail := state.tail - 1);
      WriteQuietState(next, true);
      next := DropRow(next, state.tail - 1);
    }

    /** Takes the first readable item, dropping unreadable rows and holes before it. */
    method Shift() returns (r: Option<Item>)
      requires Recoverable(storage.config, storage.store)
      modifies storage
      ensures storage.Safe()
      ensures var items := Meaning(storage.config, old(storage.store));
        && storage.allowed == {items, Rest(items)}
        && Meaning(storage.config, storage.store) == Rest(items)
        && r == if items == [] then None else Some(items[0])
      ensures r.Some? && storage.store.rows == map[] ==> storage.store == Store(None, None, map[])
    {
      storage.Begin();
      ghost var items := Meaning(storage.config, storage.store);
      var state := ReadState();
      RepairedIsTight(storage.store, state);
      storage.Aim(Rest(items));
      while state.head < state.tail
        invariant Taking(state, items) && storage.allowed == {items, Rest(items)}
        invariant state.head < state.tail ==> state.tail - 1 in storage.store.rows
        decreases state.tail - state.head
      {
        var stored := At(storage.store.rows, state.head);
        state := DropFirst(state, items);
        assert state.head < state.tail ==> state.tail - 1 in storage.store.rows;
        if stored.Some? && stored.value.Envelope? {
          return Some(stored.value.item);
        }
      }
      r := None;
    }

    /** Takes the last readable item, dropping unreadable rows and holes after it. */
    method Pop() returns (r: Option<Item>)
      requires Recoverable(storage.config, storage.store)
      modifies storage
      ensures storage.Safe()
      ensures var items := Meaning(storage.config, old(storage.store));
        && storage.allowed == {items, Front(items)}
        && Meaning(storage.config, storage.store) == Front(items)
        && r == if items == [] then None else Some(items[|items| - 1])
      ensures r.Some? && storage.store.rows == map[] ==> storage.store == Store(None, None, map[])
    {
      storage.Begin();
      ghost var items := Meaning(storage.config, storage.store);
      var state := ReadState();
      RepairedIsTight(storage.store, state);
      storage.Aim(Front(items));
      while state.tail > state.head
        invariant Taking(state, items) && storage.allowed == {items, Front(items)}
        invariant state.head < state.tail ==> state.head in storage.store.rows
        decreases state.tail - state.head
      {
        var stored := At(storage.store.rows, state.tail - 1);
        state := DropLast(state, items);
        if stored.Some? && stored.value.Envelope? {
          return Some(stored.value.item);
        }
      }
      r := None;
    }

    /** The writes of insertAt: reserve the tail, open the journal, play it. */
    method JournalInsert(repaired: QState, slot: int, item: Item)
      requires storage.Safe() && Repaired(storage.store, repaired, None)
      requires repaired.head <= slot <= repaired.tail && storage.config.Fits(repaired.used + item.bytes)
      requires storage.config.Evicts() ==> repaired.used <= storage.config.Room(item.bytes)
      modifies storage`store, storage`trail, storage`allowed
      ensures storage.Safe()
      ensures StoredItems(storage.store) == ItemsIn(old(storage.store.rows), repaired.head, slot) + [item]
        + ItemsIn(old(storage.store.rows), slot, repaired.tail)
      ensures Meaning(storage.config, storage.store) == Lasted(storage.config, item, StoredItems(storage.store))
      ensures storage.config.Fits(StoredBytes(storage.store))
      ensures storage.allowed == old(storage.allowed) + {Meaning(storage.config, storage.store)}
    {
      RepairedIsTight(storage.store, repaired);
      InsertedMeaning(storage.store.rows, repaired.head, slot, repaired.tail + 1, item);
      var state := repaired.(tail := repaired.tail + 1);
      WriteQuietState(state, false);
      var operation := Insert(state.head, state.tail, state.used, slot, state.tail - 1, item);
      ghost var begun := storage.store.(journal := Some(operation));
      FinalWithin(storage.config, begun);
      AcceptedMeaning(storage.config, begun, state.head, state.tail, slot, item, repaired.used);
      storage.Aim(Meaning(storage.config, begun));
      storage.SetJournal(operation);
      state := FinishInsert(operation);
      SameFinalRows(storage.config, begun, storage.store);
    }

    /** The writes of removeAt: give up the tail, open the journal, play it. */
    method JournalRemove(state: QState, slot: int)
      requires storage.Safe() && Quiet(storage.store)
      requires Tight(storage.store.rows, state.head, state.tail + 1) && state.head <= slot <= state.tail
      requires Lean(storage.config, storage.store.rows, state.head, state.tail + 1)
      modifies storage`store, storage`trail, storage`allowed
      ensures storage.Safe()
      ensures Meaning(storage.config, storage.store)
           == ItemsIn(Removed(old(storage.store.rows), slot, state.tail), state.head, state.tail)
      ensures storage.allowed == old(storage.allowed) + {Meaning(storage.config, storage.store)}
    {
      RemovedBytes(storage.store.rows, state.head, slot, state.tail);
      WriteQuietState(state, true);
      var operation := Remove(state.head, state.tail, state.used, slot, slot);
      ghost var begun := storage.store.(journal := Some(operation));
      FinalWithin(storage.config, begun);
      LeanMeaning(storage.config, begun, state.head, state.tail);
      storage.Aim(Meaning(storage.config, begun));
      storage.SetJournal(operation);
      var finished := FinishRemove(operation);
      SameFinalRows(storage.config, begun, storage.store);
    }

    /** insertAt on a repaired queue: evicts, then inserts at what is left of the index. */
    method PlaceAt(state: QState, index: int, item: Item) returns (r: Result<int, Error>, ghost after: QState)
      requires storage.Safe() && Repaired(storage.store, state, None) && 0 <= index <= state.tail - state.head
      requires Lean(storage.config, storage.store.rows, state.head, state.tail)
      modifies storage`store, storage`trail, storage`allowed
      ensures storage.Safe()
      ensures r.Err? <==> storage.config.CannotAdd(state.used, item.bytes)
      ensures r.Err? ==> storage.store == old(storage.store) && storage.allowed == old(storage.allowed)
      ensures r.Ok? ==> r.value == IndexAfter(index, after)
      ensures r.Ok? ==> Placed(storage.config, old(storage.store.rows), state, old(storage.allowed), storage.store,
        storage.allowed, index, item, after)
    {
      after := state;
      var fitted := EvictToFit(state, item.bytes, InsertEvictsHead(storage.config, index, state), None);
      if fitted.Err? { return Err(fitted.error), after; }
      after := fitted.value;
      RepairedIsTight(storage.store, after);
      SameBounds(storage.store.rows, state.head, state.tail, after.head, after.tail);
      assert storage.config.Evicts() ==> fitted.value.used + item.bytes <= storage.config.Target(item.bytes);
      JournalInsert(fitted.value, fitted.value.head + IndexAfter(index, fitted.value), item);
      r := Ok(IndexAfter(index, fitted.value));
    }

    /** Inserts at a position counted from the head, holes included. `before` and `after` are
        the bounds of the rows the call finds and of those eviction leaves. */
    method InsertAt(index: int, item: Item) returns (r: Result<int, Error>, ghost before: QState, ghost after: QState)
      requires Recoverable(storage.config, storage.store)
      modifies storage
      ensures storage.Safe()
      ensures InsertedAt(storage.config, old(storage.store), storage.store, storage.allowed, index, item, r, before,
        after)
    {
      storage.Begin();
      var state := ReadState();
      before, after := state, state;
      RepairedIsTight(storage.store, state);
      if !(0 <= index <= state.tail - state.head) { return Err(IndexOutOfRange), before, after; }
      if !storage.config.Fits(item.bytes) { return Err(ItemTooLarge), before, after; }
      r, after := PlaceAt(state, index, item);
    }

    /** Removes at a position counted from the head. The item stays when its slot is
        followed by a hole: the first move then has nothing to copy over it. */
    method RemoveAt(index: int) returns (r: Result<Option<Item>, Error>, ghost before: QState)
      requires Recoverable(storage.config, storage.store)
      modifies storage
      ensures storage.Safe()
      ensures RemovedAt(storage.config, old(storage.store), storage.store, storage.allowed, index, r, before)
    {
      storage.Begin();
      var state := ReadState();
      before := state;
      RepairedIsTight(storage.store, state);
      LeanMeaning(storage.config, storage.store, state.head, state.tail);
      if !(0 <= index < state.tail - state.head) { return Err(IndexOutOfRange), before; }
      RemovedMeaning(storage.store.rows, state.head, state.head + index, state.tail - 1);
      var removed := RemoveSlot(state, state.head + index);
      r := Ok(removed);
    }

    /** removeAt on a repaired queue. */
    method RemoveSlot(state: QState, slot: int) returns (removed: Option<Item>)
      requires storage.Safe() && Repaired(storage.store, state, None) && state.head <= slot < state.tail
      requires Lean(storage.config, storage.store.rows, state.head, state.tail)
      modifies storage`store, storage`trail, storage`allowed
      ensures storage.Safe()
      ensures ItemAt(old(storage.store.rows), slot) == if removed.Some? then [removed.value] else []
      ensures Meaning(storage.config, storage.store)
           == ItemsIn(Removed(old(storage.store.rows), slot, state.tail - 1), state.head, state.tail - 1)
      ensures storage.allowed == old(storage.allowed) + {Meaning(storage.config, storage.store)}
    {
      RepairedIsTight(storage.store, state);
      var stored := At(storage.store.rows, slot);
      var used := if stored.Some? then state.used - stored.value.Bytes() else state.used;
      JournalRemove(state.(tail := state.tail - 1, used := if used < 0 then 0 else used), slot);
      removed := if stored.Some? && stored.value.Envelope? then Some(stored.value.item) else None;
    }

    // ------------------------------------------------------ crashing anywhere

    method Run(operation: Operation)
      requires Recoverable(storage.config, storage.store)
      modifies storage
      ensures storage.Safe()
      ensures forall m :: m in storage.allowed ==> Possible(storage.config, operation, old(storage.store), m)
    {
      ghost var s, config := storage.store, storage.config;
      match operation {
        case Push(item) =>
          var r := Push(item);
          AddedPossible(config, s, storage.store, storage.allowed, item, false, r);
        case Unshift(item) =>
          var r := Unshift(item);
          AddedPossible(config, s, storage.store, storage.allowed, item, true, r);
        case Shift => var r := Shift();
        case Pop => var r := Pop();
        case InsertAt(index, item) =>
          var r, before, after := InsertAt(index, item);
          InsertedPossible(config, s, storage.store, storage.allowed, index, item, r, before, after);
        case RemoveAt(index) =>
          var r, before := RemoveAt(index);
          RemovedPossible(config, s, storage.store, storage.allowed, index, r, before);
      }
    }

    /** An operation cut after any of its writes, then `reloads` recoveries each cut after
        any of theirs, then one recovery that is let finish: the queue holds what an
        uninterrupted recovery makes of the items from before the operation, or from after
        it, or from after some of its evictions. */
    method RunWithCrashes(operation: Operation, reloads: nat) returns (state: QState)
      requires Recoverable(storage.config, storage.store)
      modifies storage
      ensures storage.Safe() && Repaired(storage.store, state, None)
      ensures Possible(storage.config, operation, old(storage.store),
        ItemsIn(storage.store.rows, state.head, state.tail))
    {
      Run(operation);
      storage.Crash();
      ghost var survived := Meaning(storage.config, storage.store);
      for i := 0 to reloads
        invariant Recoverable(storage.config, storage.store) && Meaning(storage.config, storage.store) == survived
      {
        storage.Begin();
        state := ReadState();
        storage.Crash();
      }
      storage.Begin();
      state := ReadState();
    }
  }
}
