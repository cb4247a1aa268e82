/** The store for chunks of incomplete groups: a byte budget shared by all groups, kept by
    deleting whole groups, expired ones first and then the least recently updated. */
module ReceivedChunks {
  import opened Positions
  import opened Totals

  // ---------------------------------------------------------------- data model

  /** A group's record. Group keys are numbered in the order of their names. */
  datatype Meta = Meta(total: nat, byteSize: nat, updatedAt: int, expiresAt: int, ttl: int, descriptor: string)

  /** The groups, the chunk lengths under [group, index], and the usage record. */
  datatype Db = Db(groups: map<int, Meta>, chunks: map<(int, nat), nat>, used: nat)

  type Limit = Option<nat>

  datatype Error = InconsistentDescriptor | ChunkIndexInvalid | GroupTooLarge

  predicate Fits(limit: Limit, bytes: int) { limit.Some? ==> bytes <= limit.value }

  function Sizes(groups: map<int, Meta>): map<int, nat> { map g | g in groups :: groups[g].byteSize }

  function ChunksOf(chunks: map<(int, nat), nat>, g: int): map<(int, nat), nat> {
    map k | k in chunks && k.0 == g :: chunks[k]
  }

  function SizeOf(groups: map<int, Meta>, g: int): nat {
    if g in groups then groups[g].byteSize else 0
  }

  /** Each group is charged for exactly its chunks, and the usage for exactly the groups. */
  ghost predicate Charged(db: Db) {
    && (forall k :: k in db.chunks ==> k.0 in db.groups)
    && (forall g :: g in db.groups ==> db.groups[g].byteSize == Total(ChunksOf(db.chunks, g)))
    && db.used == Total(Sizes(db.groups))
  }

  /** The usage is also the sum of the lengths of all stored chunks. */
  lemma {:induction false} UsedIsChunkTotal(db: Db)
    requires Charged(db)
    ensures db.used == Total(db.chunks)
    decreases |db.groups.Keys|
  {
    if db.groups.Keys == {} {
      assert forall k :: k !in db.chunks;
      assert db.chunks.Keys == {};
      TotalEmpty(db.chunks);
      TotalEmpty(Sizes(db.groups));
    } else {
      var g := Member(db.groups.Keys);
      DeleteCharged(db, g);
      assert (db.groups - {g}).Keys == db.groups.Keys - {g};
      UsedIsChunkTotal(Deleted(db, g));
      SplitGroup(db.chunks, g);
      TotalWithout(Sizes(db.groups), g);
    }
  }

  lemma SplitGroup(chunks: map<(int, nat), nat>, g: int)
    ensures Total(chunks) == Total(ChunksOf(chunks, g)) + Total(Without(chunks, g))
  {
    var s := set k | k in chunks && k.0 == g;
    TotalSplit(chunks, s);
    assert Inside(chunks, s) == ChunksOf(chunks, g) && Outside(chunks, s) == Without(chunks, g);
  }

  function Without(chunks: map<(int, nat), nat>, g: int): map<(int, nat), nat> {
    map k | k in chunks && k.0 != g :: chunks[k]
  }

  /** deleteGroupInTransaction: the group, its chunks and its charge. */
  function Deleted(db: Db, g: int): Db {
    var size := SizeOf(db.groups, g);
    Db(db.groups - {g}, Without(db.chunks, g), if db.used > size then db.used - size else 0)
  }

  lemma DeleteCharged(db: Db, g: int)
    requires Charged(db)
    ensures Charged(Deleted(db, g)) && Deleted(db, g).used == db.used - SizeOf(db.groups, g)
    ensures forall h :: h != g ==> ChunksOf(Deleted(db, g).chunks, h) == ChunksOf(db.chunks, h)
  {
    if g in db.groups {
      TotalWithout(Sizes(db.groups), g);
      assert Sizes(db.groups - {g}) == Sizes(db.groups) - {g};
    } else {
      assert db.groups - {g} == db.groups;
    }
    forall h | h != g ensures ChunksOf(Without(db.chunks, g), h) == ChunksOf(db.chunks, h) {}
  }

  // ------------------------------------------------------------- eviction order

  /** Least recently updated first, then by key. */
  predicate Older(groups: map<int, Meta>, a: int, b: int)
    requires a in groups && b in groups
  {
    groups[a].updatedAt < groups[b].updatedAt || (groups[a].updatedAt == groups[b].updatedAt && a <= b)
  }

  ghost predicate InAge(groups: map<int, Meta>, order: seq<int>) {
    && (forall g :: g in order ==> g in groups)
    && (forall i, j :: 0 <= i < j < |order| ==> order[i] != order[j] && Older(groups, order[i], order[j]))
  }

  /** oldestGroupsInTransaction: every group but `except`, oldest first. */
  method OldestGroups(groups: map<int, Meta>, except: Option<int>) returns (order: seq<int>)
    ensures InAge(groups, order)
    ensures forall g :: g in order <==> g in groups && Some(g) != except
    ensures forall i, j :: 0 <= i < j < |order| ==>
      && order[i] in groups && order[j] in groups
      && groups[order[i]].updatedAt <= groups[order[j]].updatedAt
  {
    order := [];
    var rest := groups.Keys;
    while rest != {}
      invariant rest <= groups.Keys && InAge(groups, order)
      invariant forall g :: g in order <==> g in groups && Some(g) != except && g !in rest
      decreases rest
    {
      var g := Pick(rest);
      rest := rest - {g};
      if Some(g) != except {
        order := InsertByAge(groups, order, g);
      }
    }
  }

  function InsertByAge(groups: map<int, Meta>, order: seq<int>, g: int): (r: seq<int>)
    requires InAge(groups, order) && g in groups && g !in order
    ensures InAge(groups, r) && forall h :: h in r <==> h == g || h in order
  {
    if order == [] || Older(groups, g, order[0]) then [g] + order
    else
      var rest := InsertByAge(groups, order[1..], g);
      assert order == [order[0]] + order[1..];
      assert forall j :: 0 <= j < |rest| ==> order[0] != rest[j] && Older(groups, order[0], rest[j]) by {
        forall j | 0 <= j < |rest| ensures order[0] != rest[j] && Older(groups, order[0], rest[j]) {
          assert rest[j] in rest;
          if rest[j] != g {
            var i :| 0 <= i < |order[1..]| && order[1..][i] == rest[j];
            assert order[i + 1] == rest[j];
          }
        }
      }
      [order[0]] + rest
  }

  // ------------------------------------------------------------ deleting groups

  /** The groups left in `next` are unchanged, chunks included, and none was added. */
  ghost predicate Keeps(db: Db, next: Db) {
    forall g :: g in next.groups ==>
      g in db.groups && next.groups[g] == db.groups[g] && ChunksOf(next.chunks, g) == ChunksOf(db.chunks, g)
  }

  /** Deletes the expired groups among the candidates. */
  method DeleteExpired(db: Db, candidates: seq<int>, now: int) returns (next: Db)
    requires Charged(db) && InAge(db.groups, candidates)
    ensures Charged(next) && Keeps(db, next) && next.used <= db.used
    ensures forall g :: g in next.groups <==> g in db.groups && !(g in candidates && db.groups[g].expiresAt <= now)
  {
    next := db;
    for k := 0 to |candidates|
      invariant Charged(next) && Keeps(db, next) && next.used <= db.used
      invariant forall g ::
        g in next.groups <==> g in db.groups && !(g in candidates[..k] && db.groups[g].expiresAt <= now)
    {
      var g := candidates[k];
      assert g in candidates && candidates[..k + 1] == candidates[..k] + [g];
      if db.groups[g].expiresAt <= now {
        DeleteCharged(next, g);
        next := Deleted(next, g);
      }
    }
    assert candidates[..|candidates|] == candidates;
  }

  /** Evicting in age order took the oldest of the live groups `metas`, and without the
      last of them `required` more bytes would not have fitted. */
  ghost predicate EvictedOldest(limit: Limit, metas: map<int, Meta>, gone: set<int>, next: Db, now: int,
      required: int) {
    && (forall g :: g in gone ==> g in metas && metas[g].expiresAt > now && g !in next.groups)
    && (forall a, b :: a in gone && b in next.groups && b in metas ==> Older(metas, a, b))
    && (gone == {} || exists last :: last in gone && (forall a :: a in gone ==> Older(metas, a, last))
                        && !Fits(limit, next.used + metas[last].byteSize + required))
  }

  /** What has gone was updated no later than any live group that stays, and would not all fit
      with it. */
  lemma OldestGo(limit: Limit, metas: map<int, Meta>, gone: set<int>, next: Db, now: int, required: int, a: int, b: int)
    requires EvictedOldest(limit, metas, gone, next, now, required) && a in gone
    ensures a in metas && metas[a].expiresAt > now && (b in next.groups && b in metas ==>
      metas[a].updatedAt <= metas[b].updatedAt)
    ensures limit.Some? && exists last ::
      && last in gone && last in metas && metas[last].updatedAt >= metas[a].updatedAt
      && next.used + metas[last].byteSize + required > limit.value
  {
  }

  /** Where an eviction pass stands after visiting `seen`: it has evicted `gone`. */
  ghost predicate EvictedSome(limit: Limit, db: Db, next: Db, metas: map<int, Meta>, seen: seq<int>, gone: set<int>,
                              now: int, required: int) {
    && Charged(next) && Keeps(db, next) && next.used <= db.used
    && next.groups.Keys == db.groups.Keys - gone
    && (forall g :: g in seen ==> g in metas)
    && (forall g :: g in gone <==> g in seen && metas[g].expiresAt > now)
    && (gone == {} || exists last :: last in gone && (forall a :: a in gone ==> Older(metas, a, last))
                        && !Fits(limit, next.used + metas[last].byteSize + required))
  }

  method EvictTurn(limit: Limit, ghost db: Db, was: Db, metas: map<int, Meta>, candidates: seq<int>, k: nat,
                   ghost gone: set<int>, now: int, required: nat) returns (next: Db, ghost gone': set<int>)
    requires InAge(metas, candidates) && k < |candidates| && candidates[k] in metas
    requires EvictedSome(limit, db, was, metas, candidates[..k], gone, now, required)
    requires metas[candidates[k]].expiresAt > now ==>
      && !Fits(limit, was.used + required)
      && candidates[k] in db.groups && db.groups[candidates[k]] == metas[candidates[k]]
    ensures EvictedSome(limit, db, next, metas, candidates[..k] + [candidates[k]], gone', now, required)
  {
    var g := candidates[k];
    next, gone' := was, gone;
    if metas[g].expiresAt > now {
      DeleteCharged(was, g);
      next := Deleted(was, g);
      gone' := gone + {g};
      assert g in gone' && !Fits(limit, next.used + metas[g].byteSize + required);
    }
  }

  /** Evicts live groups, oldest first, until `required` more bytes fit. `metas` is what the
      candidates were read as; the expired ones are gone already. */
  method EvictOldest(limit: Limit, db: Db, metas: map<int, Meta>, candidates: seq<int>, now: int, required: nat)
    returns (next: Db, ghost gone: set<int>)
    requires Charged(db) && InAge(metas, candidates)
    requires forall g ::
      g in db.groups && g in metas ==> g in candidates && metas[g].expiresAt > now && db.groups[g] == metas[g]
    requires forall g :: g in candidates && metas[g].expiresAt > now ==> g in db.groups
    ensures Charged(next) && Keeps(db, next) && next.used <= db.used
    ensures next.groups.Keys == db.groups.Keys - gone
    ensures EvictedOldest(limit, metas, gone, next, now, required)
    ensures Fits(limit, next.used + required) || forall g :: g in next.groups ==> g !in metas
  {
    var k;
    next, gone, k := EvictUntil(limit, db, metas, candidates, now, required);
    GoneAreOlder(limit, db, next, metas, candidates, k, gone, now, required);
    if k == |candidates| {
      assert candidates[..k] == candidates;
      forall g | g in next.groups ensures g !in metas { assert g in db.groups && g !in gone; }
    }
  }

  /** The loop of the eviction: how far it went and what it evicted. */
  method EvictUntil(limit: Limit, db: Db, metas: map<int, Meta>, candidates: seq<int>, now: int, required: nat)
    returns (next: Db, ghost gone: set<int>, k: nat)
    requires Charged(db) && InAge(metas, candidates) && forall g :: g in candidates ==> g in metas
    requires forall g :: g in db.groups && g in metas ==> db.groups[g] == metas[g]
    requires forall g :: g in candidates && metas[g].expiresAt > now ==> g in db.groups
    ensures k <= |candidates| && EvictedSome(limit, db, next, metas, candidates[..k], gone, now, required)
    ensures k < |candidates| ==> Fits(limit, next.used + required)
  {
    next, gone, k := db, {}, 0;
    while k < |candidates| && (metas[candidates[k]].expiresAt <= now || !Fits(limit, next.used + required))
      invariant 0 <= k <= |candidates|
      invariant EvictedSome(limit, db, next, metas, candidates[..k], gone, now, required)
      decreases |candidates| - k
    {
      assert candidates[k] in candidates && candidates[..k + 1] == candidates[..k] + [candidates[k]];
      next, gone := EvictTurn(limit, db, next, metas, candidates, k, gone, now, required);
      k := k + 1;
    }
  }

  lemma GoneAreOlder(limit: Limit, db: Db, next: Db, metas: map<int, Meta>, candidates: seq<int>, k: nat,
      gone: set<int>, now: int, required: nat)
    requires InAge(metas, candidates) && k <= |candidates|
    requires EvictedSome(limit, db, next, metas, candidates[..k], gone, now, required)
    requires forall g :: g in db.groups && g in metas ==> g in candidates && metas[g].expiresAt > now
    ensures forall a, b :: a in gone && b in next.groups && b in metas ==> Older(metas, a, b)
  {
  }

  // --------------------------------------------------------------- transactions

  datatype Outcome = TooLarge | Held

  /** The group as a chunk for it finds it: absent, expired, inconsistent or live. */
  predicate Live(db: Db, key: int, now: int) {
    key in db.groups && db.groups[key].expiresAt > now
  }

  /** The database once an expired group, or one announced with another total, is gone. */
  function Refreshed(db: Db, key: int, total: nat, now: int): Db {
    if key in db.groups && (db.groups[key].expiresAt <= now || db.groups[key].total != total) then Deleted(db, key)
    else db
  }

  /** Storing a chunk that was not there charges its group and the usage for its length. */
  lemma StoreCharged(db: Db, key: int, index: nat, length: nat, meta: Meta)
    requires Charged(db) && (key, index) !in db.chunks
    requires meta.byteSize == SizeOf(db.groups, key) + length
    ensures var next := Db(db.groups[key := meta], db.chunks[(key, index) := length], db.used + length);
      && Charged(next)
      && ChunksOf(next.chunks, key) == ChunksOf(db.chunks, key)[(key, index) := length]
      && forall h :: h != key ==> ChunksOf(next.chunks, h) == ChunksOf(db.chunks, h)
  {
    var next := Db(db.groups[key := meta], db.chunks[(key, index) := length], db.used + length);
    var own := ChunksOf(db.chunks, key);
    assert ChunksOf(next.chunks, key) == own[(key, index) := length];
    assert own - {(key, index)} == own;
    TotalSet(own, (key, index), length);
    if key !in db.groups {
      assert forall k :: k !in own;
      TotalEmpty(own);
    }
    forall h | h != key ensures ChunksOf(next.chunks, h) == ChunksOf(db.chunks, h) {}
    var sizes := Sizes(db.groups);
    assert Sizes(next.groups) == sizes[key := meta.byteSize];
    TotalSet(sizes, key, meta.byteSize);
    if key in db.groups { TotalWithout(sizes, key); } else { assert sizes - {key} == sizes; }
  }

  /** When only the group being written is left, its own size is the whole usage. */
  lemma OnlyOwn(db: Db, key: int)
    requires Charged(db) && forall g :: g in db.groups ==> g == key
    ensures db.used == SizeOf(db.groups, key)
  {
    var sizes := Sizes(db.groups);
    if key in db.groups {
      TotalWithout(sizes, key);
      assert forall g :: g !in sizes - {key};
      TotalEmpty(sizes - {key});
    } else {
      assert forall g :: g !in sizes;
      TotalEmpty(sizes);
    }
  }

  /** What makes room for a chunk: expired groups go, and of the other groups as many of the
      oldest as needed; the group being written stays. */
  ghost predicate Roomed(limit: Limit, db: Db, next: Db, key: int, gone: set<int>, now: int, required: nat) {
    && Keeps(db, next) && (key in db.groups ==> key in next.groups)
    && (forall g :: g in next.groups && g != key ==> db.groups[g].expiresAt > now)
    && (forall g :: g in db.groups && g !in next.groups ==> db.groups[g].expiresAt <= now || g in gone)
    && EvictedOldest(limit, db.groups - {key}, gone, next, now, required)
  }

  /** The eviction pass of a put: expired groups first, then the oldest live ones, never
      the group being written. Room is always found, for that group fits by itself. */
  method MakeRoom(limit: Limit, db: Db, key: int, now: int, required: nat) returns (next: Db, ghost gone: set<int>)
    requires Charged(db) && Fits(limit, SizeOf(db.groups, key) + required)
    ensures Charged(next) && next.used <= db.used && Fits(limit, next.used + required)
    ensures Roomed(limit, db, next, key, gone, now, required)
  {
    var candidates := OldestGroups(db.groups, Some(key));
    var fresher := DeleteExpired(db, candidates, now);
    var metas := db.groups - {key};
    next, gone := EvictOldest(limit, fresher, metas, candidates, now, required);
    if !Fits(limit, next.used + required) {
      OnlyOwn(next, key);
      assert false;
    }
  }

  /** Groups other than `key` that are still there are untouched, chunks included. */
  ghost predicate OthersKept(base: Db, next: Db, key: int) {
    forall g :: g in next.groups && g != key ==>
      g in base.groups && next.groups[g] == base.groups[g] && ChunksOf(next.chunks, g) == ChunksOf(base.chunks, g)
  }

  /** The group keeps its chunks and gains this one; of the others went the expired ones
      and as many of the oldest as the budget asked for. */
  ghost predicate Admitted(limit: Limit, base: Db, next: Db, key: int, index: nat, length: nat, gone: set<int>,
      now: int) {
    && ChunksOf(next.chunks, key) == ChunksOf(base.chunks, key)[(key, index) := length]
    && EvictedOldest(limit, base.groups - {key}, gone, next, now, 0)
    && (forall g :: g in base.groups && g !in next.groups ==> base.groups[g].expiresAt <= now || g in gone)
    && (forall g :: g in next.groups && g != key ==> g in base.groups && base.groups[g].expiresAt > now)
  }

  method Admit(limit: Limit, base: Db, key: int, index: nat, length: nat, meta: Meta, now: int)
    returns (next: Db, ghost gone: set<int>)
    requires Charged(base) && (key, index) !in base.chunks
    requires meta.byteSize == SizeOf(base.groups, key) + length && Fits(limit, meta.byteSize)
    ensures Charged(next) && Fits(limit, next.used)
    ensures key in next.groups && next.groups[key] == meta && (key, index) in next.chunks
    ensures OthersKept(base, next, key) && Admitted(limit, base, next, key, index, length, gone, now)
  {
    var room;
    room, gone := MakeRoom(limit, base, key, now, length);
    SameChunks(base, room, key);
    StoreCharged(room, key, index, length, meta);
    next := Db(room.groups[key := meta], room.chunks[(key, index) := length], room.used + length);
    StoredInRoom(limit, base, room, next, key, index, length, gone, now);
  }

  lemma StoredInRoom(limit: Limit, base: Db, room: Db, next: Db, key: int, index: nat, length: nat, gone: set<int>,
      now: int)
    requires Roomed(limit, base, room, key, gone, now, length)
    requires next.groups.Keys == room.groups.Keys + {key} && next.used == room.used + length
    requires forall g :: g in room.groups && g != key ==> next.groups[g] == room.groups[g]
    requires ChunksOf(next.chunks, key) == ChunksOf(base.chunks, key)[(key, index) := length]
    requires forall h :: h != key ==> ChunksOf(next.chunks, h) == ChunksOf(room.chunks, h)
    ensures OthersKept(base, next, key) && Admitted(limit, base, next, key, index, length, gone, now)
  {
  }

  lemma SameChunks(db: Db, next: Db, key: int)
    requires Charged(db) && Charged(next) && Keeps(db, next) && (key in db.groups ==> key in next.groups)
    ensures ChunksOf(next.chunks, key) == ChunksOf(db.chunks, key)
    ensures forall i: nat :: (key, i) in next.chunks <==> (key, i) in db.chunks
  {
    if key !in next.groups {
      assert forall k :: k !in ChunksOf(next.chunks, key) && k !in ChunksOf(db.chunks, key);
    }
    forall i: nat ensures (key, i) in next.chunks <==> (key, i) in db.chunks {
      assert (key, i) in next.chunks <==> (key, i) in ChunksOf(next.chunks, key);
      assert (key, i) in db.chunks <==> (key, i) in ChunksOf(db.chunks, key);
    }
  }

  /** What a put that is not refused leaves: the chunk held, its group's record renewed, and
      of the other groups either nothing changed or the eviction pass went over them. */
  ghost predicate Stored(limit: Limit, base: Db, next: Db, key: int, index: nat, total: nat, length: nat,
                         descriptor: string, ttl: int, now: int, gone: set<int>)
  {
    && key in next.groups && (key, index) in next.chunks
    && Renewed(next.groups[key], total, descriptor, if key in base.groups then base.groups[key].ttl else ttl, now)
    && OthersKept(base, next, key)
    && if (key, index) in base.chunks then next.chunks == base.chunks && next.groups.Keys == base.groups.Keys
       else Admitted(limit, base, next, key, index, length, gone, now)
  }

  predicate Renewed(meta: Meta, total: nat, descriptor: string, ttl: int, now: int) {
    meta.total == total && meta.descriptor == descriptor && meta.ttl == ttl
    && meta.updatedAt == now && meta.expiresAt == now + ttl
  }

  /** The chunk is new and its group, or the chunk alone, is over the budget. */
  predicate Oversized(limit: Limit, base: Db, key: int, index: nat, length: nat) {
    (key, index) !in base.chunks && !Fits(limit, SizeOf(base.groups, key) + length)
  }

  /** putOnce: one chunk of one group. */
  method PutOnce(limit: Limit, db: Db, key: int, index: nat, total: nat, length: nat, descriptor: string,
                 ttl: int, now: int) returns (r: Result<Db, Error>, outcome: Outcome, ghost gone: set<int>)
    requires Charged(db)
    ensures r.Err? <==> Live(db, key, now) && db.groups[key].descriptor != descriptor
    ensures r.Err? ==> r.error == InconsistentDescriptor
    ensures r.Ok? ==> Charged(r.value) && (Fits(limit, db.used) ==> Fits(limit, r.value.used))
    ensures r.Ok? ==> (outcome.TooLarge? <==> Oversized(limit, Refreshed(db, key, total, now), key, index, length))
    ensures r.Ok? && outcome.TooLarge? ==> r.value == Deleted(Refreshed(db, key, total, now), key)
    ensures r.Ok? && outcome.Held? ==>
      Stored(limit, Refreshed(db, key, total, now), r.value, key, index, total, length, descriptor, ttl, now, gone)
  {
    gone := {};
    if Live(db, key, now) && db.groups[key].descriptor != descriptor {
      return Err(InconsistentDescriptor), Held, gone;
    }
    var base := Refreshed(db, key, total, now);
    DeleteCharged(db, key);
    var meta := if key in base.groups then base.groups[key] else Meta(total, 0, now, now + ttl, ttl, descriptor);
    var touched := meta.(total := total, updatedAt := now, expiresAt := now + meta.ttl);
    if (key, index) in base.chunks {
      TouchCharged(base, key, touched);
      return Ok(base.(groups := base.groups[key := touched])), Held, gone;
    }
    if !Fits(limit, length) || !Fits(limit, meta.byteSize + length) {
      DeleteCharged(base, key);
      return Ok(Deleted(base, key)), TooLarge, gone;
    }
    var next;
    next, gone := Admit(limit, base, key, index, length, touched.(byteSize := meta.byteSize + length), now);
    r, outcome := Ok(next), Held;
  }

  /** The chunks of the group after a put: the new one, and those it had if it was live and
      announced with the same total. */
  lemma PutHolds(limit: Limit, db: Db, next: Db, key: int, index: nat, total: nat, length: nat, descriptor: string,
      ttl: int, now: int, gone: set<int>)
    requires Charged(db)
    requires Stored(limit, Refreshed(db, key, total, now), next, key, index, total, length, descriptor, ttl, now, gone)
    ensures forall i: nat :: (key, i) in next.chunks <==>
      i == index || (Live(db, key, now) && db.groups[key].total == total && (key, i) in db.chunks)
    ensures forall i: nat :: i != index && (key, i) in next.chunks ==> next.chunks[(key, i)] == db.chunks[(key, i)]
    ensures (key, index) in next.chunks
    ensures !(Live(db, key, now) && db.groups[key].total == total && (key, index) in db.chunks) ==>
      next.chunks[(key, index)] == length
  {
    var base := Refreshed(db, key, total, now);
    forall i: nat
      ensures (key, i) in base.chunks <==> Live(db, key, now) && db.groups[key].total == total && (key, i) in db.chunks
    {
      assert (key, i) in db.chunks ==> (key, i).0 in db.groups;
    }
    forall i: nat
      ensures (key, i) in next.chunks <==> i == index || (key, i) in base.chunks
      ensures i != index && (key, i) in next.chunks ==> next.chunks[(key, i)] == base.chunks[(key, i)]
      ensures (key, index) !in base.chunks ==> next.chunks[(key, index)] == length
    {
      assert (key, i) in next.chunks <==> (key, i) in ChunksOf(next.chunks, key);
      assert (key, i) in base.chunks <==> (key, i) in ChunksOf(base.chunks, key);
      if (key, index) !in base.chunks {
        assert ChunksOf(next.chunks, key)[(key, index)] == length && (key, index) in ChunksOf(next.chunks, key);
      }
    }
  }

  lemma TouchCharged(db: Db, key: int, meta: Meta)
    requires Charged(db) && key in db.groups && meta.byteSize == db.groups[key].byteSize
    ensures Charged(db.(groups := db.groups[key := meta]))
  {
    assert Sizes(db.groups[key := meta]) == Sizes(db.groups);
  }

  /** The groups updated no earlier than `g`, with their sizes: what is left to count when
      the turn comes to `g` and nothing older was spared. */
  function SinceSizes(groups: map<int, Meta>, g: int): map<int, nat>
    requires g in groups
  {
    map h | h in groups && Older(groups, g, h) :: groups[h].byteSize
  }

  ghost function BytesSince(groups: map<int, Meta>, g: int): nat
    requires g in groups
  {
    Total(SinceSizes(groups, g))
  }

  lemma LessSince(groups: map<int, Meta>, a: int, b: int)
    requires a in groups && b in groups && Older(groups, a, b)
    ensures BytesSince(groups, b) <= BytesSince(groups, a)
  {
    var all := SinceSizes(groups, a);
    var since := SinceSizes(groups, b).Keys;
    TotalSplit(all, since);
    assert Inside(all, since) == SinceSizes(groups, b);
  }

  /** The groups a cleanup spares: live ones that fit together with all that is younger. */
  ghost predicate Spared(limit: Limit, groups: map<int, Meta>, g: int, now: int) {
    g in groups && groups[g].expiresAt > now && Fits(limit, BytesSince(groups, g))
  }

  /** Where a cleanup stands after visiting `seen`: `spared` says whether it has left a live
      group in place; from then on it leaves every live group. */
  ghost predicate Cleaned(limit: Limit, db: Db, next: Db, seen: seq<int>, spared: bool, now: int) {
    && Charged(next) && Keeps(db, next) && next.used <= db.used
    && (forall g :: g in db.groups && g !in seen ==> g in next.groups)
    && (forall g :: g in seen ==> (g in next.groups <==> Spared(limit, db.groups, g, now)))
    && (!spared ==> forall g :: g in seen ==> g !in next.groups)
    && (spared ==> Fits(limit, next.used))
    && (spared ==> forall g :: g in db.groups && g !in seen ==> Fits(limit, BytesSince(db.groups, g)))
  }

  method CleanupTurn(limit: Limit, db: Db, was: Db, order: seq<int>, k: nat, ghost spared: bool, now: int)
    returns (next: Db, ghost spared': bool)
    requires InAge(db.groups, order) && k < |order| && forall g :: g in order <==> g in db.groups && Some(g) != None
    requires Cleaned(limit, db, was, order[..k], spared, now)
    ensures Cleaned(limit, db, next, order[..k] + [order[k]], spared', now)
  {
    var g := order[k];
    assert g in order;
    if db.groups[g].expiresAt > now && Fits(limit, was.used) {
      SpareTurn(limit, db, was, order, k, spared, now);
      next, spared' := was, true;
    } else {
      DropTurn(limit, db, was, order, k, spared, now);
      next, spared' := Deleted(was, g), spared;
    }
  }

  lemma SpareTurn(limit: Limit, db: Db, was: Db, order: seq<int>, k: nat, spared: bool, now: int)
    requires InAge(db.groups, order) && k < |order| && order[k] in db.groups
    requires forall g :: g in db.groups ==> g in order
    requires Cleaned(limit, db, was, order[..k], spared, now)
    requires db.groups[order[k]].expiresAt > now && Fits(limit, was.used)
    ensures Cleaned(limit, db, was, order[..k] + [order[k]], true, now)
  {
    var g := order[k];
    if !spared {
      LeftIsSince(db, was, order, k);
      forall h | h in db.groups && h !in order[..k] ensures Fits(limit, BytesSince(db.groups, h)) {
        OlderThanRest(db.groups, order, k, h);
        LessSince(db.groups, g, h);
      }
    }
  }

  lemma DropTurn(limit: Limit, db: Db, was: Db, order: seq<int>, k: nat, spared: bool, now: int)
    requires InAge(db.groups, order) && k < |order| && order[k] in db.groups
    requires forall g :: g in db.groups ==> g in order
    requires Cleaned(limit, db, was, order[..k], spared, now)
    requires !(db.groups[order[k]].expiresAt > now && Fits(limit, was.used))
    ensures Cleaned(limit, db, Deleted(was, order[k]), order[..k] + [order[k]], spared, now)
  {
    var g := order[k];
    if !spared { LeftIsSince(db, was, order, k); }
    DeleteCharged(was, g);
    assert !Spared(limit, db.groups, g, now);
  }

  /** While nothing was spared, what is stored when the turn comes to a group is that group
      and the younger ones. */
  lemma LeftIsSince(db: Db, was: Db, order: seq<int>, k: nat)
    requires Charged(was) && Keeps(db, was) && InAge(db.groups, order) && k < |order| && order[k] in db.groups
    requires forall g :: g in db.groups ==> g in order
    requires forall g :: g in was.groups <==> g in db.groups && g !in order[..k]
    ensures was.used == BytesSince(db.groups, order[k])
  {
    forall h | h in db.groups ensures h in was.groups <==> Older(db.groups, order[k], h) {
      if h in order[..k] {
      } else {
        OlderThanRest(db.groups, order, k, h);
      }
    }
    forall h | h in was.groups ensures h in db.groups && was.groups[h] == db.groups[h] {}
    assert Sizes(was.groups).Keys == SinceSizes(db.groups, order[k]).Keys;
    assert Sizes(was.groups) == SinceSizes(db.groups, order[k]);
  }

  /** cleanupStaleRaw: expired groups go, and live ones, oldest first, while over the budget.
      Bytes of expired groups count until their own turn comes. */
  method Cleanup(limit: Limit, db: Db, now: int) returns (next: Db)
    requires Charged(db)
    ensures Charged(next) && Keeps(db, next) && Fits(limit, next.used) && next.used <= db.used
    ensures forall g :: g in next.groups <==> Spared(limit, db.groups, g, now)
  {
    var order := OldestGroups(db.groups, None);
    next := db;
    ghost var spared := false;
    for k := 0 to |order|
      invariant Cleaned(limit, db, next, order[..k], spared, now)
    {
      assert order[..k + 1] == order[..k] + [order[k]];
      next, spared := CleanupTurn(limit, db, next, order, k, spared, now);
    }
    assert order[..|order|] == order;
    CleanedAll(limit, db, next, order, spared, now);
  }

  lemma CleanedAll(limit: Limit, db: Db, next: Db, order: seq<int>, spared: bool, now: int)
    requires Cleaned(limit, db, next, order, spared, now)
    requires forall g :: g in order <==> g in db.groups && Some(g) != None
    ensures Fits(limit, next.used) && forall g :: g in next.groups <==> Spared(limit, db.groups, g, now)
  {
    forall g ensures g in next.groups <==> Spared(limit, db.groups, g, now) {
      assert g in next.groups ==> g in db.groups;
      assert g in db.groups ==> g in order;
    }
    if !spared {
      forall g ensures g !in next.groups { assert g in next.groups ==> g in db.groups && g in order; }
      EmptyUsage(next);
    }
  }

  lemma SinceIsLess(groups: map<int, Meta>, g: int)
    requires g in groups
    ensures BytesSince(groups, g) <= Total(Sizes(groups))
  {
    var all := Sizes(groups);
    var since := SinceSizes(groups, g).Keys;
    TotalSplit(all, since);
    assert Inside(all, since) == SinceSizes(groups, g);
  }

  /** Within the budget every live group stays: one can go only from a database that was
      filled under a larger budget. */
  lemma LiveStay(limit: Limit, db: Db, now: int)
    requires Charged(db) && Fits(limit, db.used)
    ensures forall g :: Spared(limit, db.groups, g, now) <==> g in db.groups && db.groups[g].expiresAt > now
  {
    forall g | g in db.groups ensures BytesSince(db.groups, g) <= db.used { SinceIsLess(db.groups, g); }
  }

  /** So live groups go oldest first, and none goes when everything fits. */
  lemma SparedAreYounger(limit: Limit, groups: map<int, Meta>, a: int, b: int, now: int)
    requires a in groups && groups[a].expiresAt > now && !Spared(limit, groups, a, now) && Spared(limit, groups, b, now)
    ensures Older(groups, a, b) && a != b && !Fits(limit, Total(Sizes(groups)))
    ensures b in groups && groups[a].updatedAt <= groups[b].updatedAt
  {
    if Older(groups, b, a) {
      LessSince(groups, b, a);
      assert false;
    }
    SinceIsLess(groups, a);
  }

  /** A database of two chunks of 6 bytes, the older group live at time 10, the other expired. */
  const OVERFULL: Db := Db(
    map[1 := Meta(1, 6, 1, 100, 99, ""), 2 := Meta(1, 6, 2, 5, 3, "")],
    map[(1, 0) := 6, (2, 0) := 6], 12)

  lemma TwoSizes(sizes: map<int, nat>)
    requires sizes == map[1 := 6, 2 := 6]
    ensures Total(sizes) == 12
  {
    TotalWithout(sizes, 1);
    TotalWithout(sizes - {1}, 2);
  }

  lemma OneChunk(chunks: map<(int, nat), nat>, g: int)
    requires chunks == map[(g, 0) := 6]
    ensures Total(chunks) == 6
  {
    TotalWithout(chunks, (g, 0));
  }

  lemma OverfullIsCharged()
    ensures Charged(OVERFULL)
  {
    assert Sizes(OVERFULL.groups) == map[1 := 6, 2 := 6];
    TwoSizes(Sizes(OVERFULL.groups));
    assert ChunksOf(OVERFULL.chunks, 1) == map[(1, 0) := 6] && ChunksOf(OVERFULL.chunks, 2) == map[(2, 0) := 6];
    OneChunk(ChunksOf(OVERFULL.chunks, 1), 1);
    OneChunk(ChunksOf(OVERFULL.chunks, 2), 2);
  }

  /** Expired bytes count against an older live group: reopened under a budget of 10, this
      database loses its live group, although that would fit once the expired one is gone. */
  lemma ExpiredBytesCount()
    ensures Charged(OVERFULL) && OVERFULL.groups[1].expiresAt > 10 >= OVERFULL.groups[2].expiresAt
    ensures !Spared(Some(10), OVERFULL.groups, 1, 10) && Fits(Some(10), Deleted(OVERFULL, 2).used)
  {
    OverfullIsCharged();
    assert SinceSizes(OVERFULL.groups, 1) == map[1 := 6, 2 := 6];
    TwoSizes(SinceSizes(OVERFULL.groups, 1));
  }

  lemma EmptyUsage(db: Db)
    requires Charged(db) && forall b :: b !in db.groups
    ensures db.used == 0
  {
    assert forall g :: g !in Sizes(db.groups);
    TotalEmpty(Sizes(db.groups));
  }

  lemma OlderThanRest(groups: map<int, Meta>, order: seq<int>, k: nat, b: int)
    requires InAge(groups, order) && k < |order| && b in groups && b in order && b !in order[..k]
    ensures Older(groups, order[k], b)
  {
  }

  // ------------------------------------------------------------------ the store

  /** What the start-up cleanup makes of the stored database, once. */
  ghost predicate Opened(limit: Limit, ready: bool, db: Db, next: Db, now: int) {
    if ready then next == db
    else Keeps(db, next) && forall g :: g in next.groups <==> Spared(limit, db.groups, g, now)
  }

  class Store {
    const limit: Limit
    var db: Db
    /** The start-up cleanup is done. */
    var ready: bool

    /** A stored database is accounted for; from the first cleanup on it fits the budget. */
    ghost predicate Valid()
      reads this
    {
      Charged(db) && (ready ==> Fits(limit, db.used))
    }

    /** Opens a stored database, which may have been filled under a larger budget. */
    constructor (limit: Limit, stored: Db)
      requires Charged(stored)
      ensures Valid() && this.limit == limit && db == stored && !ready
    {
      this.limit, db, ready := limit, stored, false;
    }

    /** ready: the first call that needs the database cleans it up. */
    method Ready(now: int)
      requires Valid()
      modifies this
      ensures Valid() && ready && Opened(limit, old(ready), old(db), db, now)
    {
      if !ready {
        db := Cleanup(limit, db, now);
        ready := true;
      }
    }

    /** put: an error leaves the store as its start-up cleanup left it, except that a group
        that has grown too large, or could never fit, is deleted. */
    method Put(key: int, index: nat, total: nat, length: nat, descriptor: string, ttl: int, now: int)
      returns (r: Result<Meta, Error>, ghost start: Db, ghost gone: set<int>)
      requires Valid()
      modifies this
      ensures Valid() && db.used == Total(db.chunks)
      ensures r == Err(ChunkIndexInvalid) <==> index >= total
      ensures index >= total ==> unchanged(this)
      ensures index < total ==> ready && Opened(limit, old(ready), old(db), start, now)
      ensures r == Err(InconsistentDescriptor)
         <==> index < total && Live(start, key, now) && start.groups[key].descriptor != descriptor
      ensures r == Err(InconsistentDescriptor) ==> db == start
      ensures r.Ok? || r.error == GroupTooLarge ==>
        (r.Err? <==> Oversized(limit, Refreshed(start, key, total, now), key, index, length))
      ensures r == Err(GroupTooLarge) ==> db == Deleted(Refreshed(start, key, total, now), key)
      ensures r.Ok? ==> key in db.groups && db.groups[key] == r.value
      ensures r.Ok? ==>
        Stored(limit, Refreshed(start, key, total, now), db, key, index, total, length, descriptor, ttl, now, gone)
    {
      gone, start := {}, db;
      UsedIsChunkTotal(db);
      if index >= total { return Err(ChunkIndexInvalid), start, gone; }
      Ready(now);
      start := db;
      UsedIsChunkTotal(db);
      var next, outcome;
      next, outcome, gone := PutOnce(limit, db, key, index, total, length, descriptor, ttl, now);
      if next.Err? { return Err(next.error), start, gone; }
      db := next.value;
      UsedIsChunkTotal(db);
      r := if outcome.TooLarge? then Err(GroupTooLarge) else Ok(db.groups[key]);
    }

    /** cleanupStale, on a database that the start-up cleanup may still have to see. */
    method CleanupStale(now: int)
      requires Valid()
      modifies this
      ensures Valid() && ready && db.used == Total(db.chunks) && Keeps(old(db), db)
      ensures forall g :: g in db.groups <==> Spared(limit, old(db).groups, g, now)
    {
      ghost var stored := db;
      Ready(now);
      LiveStay(limit, db, now);
      ghost var start := db;
      db := Cleanup(limit, db, now);
      if old(ready) { LiveStay(limit, stored, now); } else { assert forall g :: g in db.groups <==> g in start.groups; }
      UsedIsChunkTotal(db);
    }

    method RemoveGroup(key: int, now: int) returns (removed: bool, ghost start: Db)
      requires Valid()
      modifies this
      ensures Valid() && ready && Opened(limit, old(ready), old(db), start, now)
      ensures db == Deleted(start, key) && (removed <==> key in start.groups)
    {
      Ready(now);
      start := db;
      removed := key in db.groups;
      DeleteCharged(db, key);
      db := Deleted(db, key);
    }
  }
}
