/** What the queue kept in Web Storage stores, and which items such a store stands for,
    whatever write was the last before the page went away. */
module WebStorage {
  import opened Positions
  import opened Capacity

  // ---------------------------------------------------------------- data model

  type Size = n: int | n > 0 witness 1

  /** A queued value; `bytes` is the size of its stored envelope. */
  datatype Item = Item(content: string, bytes: Size)

  /** A stored row: an envelope, or text that does not parse as one. */
  datatype Row = Envelope(item: Item) | Unreadable(size: Size) {
    function Bytes(): nat { if Envelope? then item.bytes else size }
  }

  datatype QState = QState(head: int, tail: int, used: int)

  datatype Journal =
    | Insert(head: int, tail: int, used: int, slot: int, cursor: int, item: Item)
    | Remove(head: int, tail: int, used: int, slot: int, cursor: int)

  /** What the storage area holds: the state key, the journal key, the item keys. */
  datatype Store = Store(state: Option<QState>, journal: Option<Journal>, rows: map<int, Row>)

  datatype Error = ItemTooLarge | CapacityExceeded | IndexOutOfRange

  function NormalizeState(state: Option<QState>): QState {
    match state
    case None => QState(0, 0, 0)
    case Some(s) =>
      QState(s.head, if s.tail >= s.head then s.tail else s.head, if s.used >= 0 then s.used else 0)
  }

  /** The caller's items among stored rows. */
  function Items(rows: map<int, Row>): map<int, Item> {
    map k | k in rows && rows[k].Envelope? :: rows[k].item
  }

  function Sizes(rows: map<int, Row>): map<int, nat> {
    map k | k in rows :: rows[k].Bytes()
  }

  function ItemsIn(rows: map<int, Row>, lo: int, hi: int): seq<Item> {
    Span(Items(rows), lo, hi)
  }

  function BytesIn(rows: map<int, Row>, lo: int, hi: int): nat {
    Sum(Sizes(rows), lo, hi)
  }

  function ItemAt(rows: map<int, Row>, at: int): seq<Item> {
    if at in rows && rows[at].Envelope? then [rows[at].item] else []
  }

  // ------------------------------------------------- what a store stands for

  function Moved(rows: map<int, Row>, from: int, to: int): map<int, Row> {
    if from in rows then rows[to := rows[from]] - {from} else rows
  }

  /** The rows once an insert journal at `cursor` has been played to its end. */
  function Inserted(rows: map<int, Row>, slot: int, cursor: int, item: Item): map<int, Row>
    decreases cursor - slot
  {
    if cursor <= slot then rows[slot := Envelope(item)]
    else Inserted(Moved(rows, cursor - 1, cursor), slot, cursor - 1, item)
  }

  /** The rows once a remove journal at `cursor` has been played to its end. */
  function Removed(rows: map<int, Row>, cursor: int, tail: int): map<int, Row>
    decreases tail - cursor
  {
    if cursor >= tail then rows - {tail}
    else Removed(Moved(rows, cursor + 1, cursor), cursor + 1, tail)
  }

  /** Bounds recovery can start from: no row is further than one position outside them,
      and a row left behind at the tail is never behind an unoccupied head. */
  predicate Bounded(st: QState, rows: map<int, Row>) {
    && Within(rows, st.head - 1, st.tail + 1)
    && (st.tail in rows ==> st.head in rows || st.head - 1 in rows)
  }

  /** The bounds of a repaired queue: both ends are occupied. */
  predicate Tight(rows: map<int, Row>, head: int, tail: int) {
    && head <= tail && Within(rows, head, tail)
    && (head < tail ==> head in rows && tail - 1 in rows)
  }

  predicate Quiet(s: Store) {
    s.journal.None? && Bounded(NormalizeState(s.state), s.rows)
  }

  predicate JournalOk(config: Config, j: Journal, rows: map<int, Row>) {
    match j
    case Insert(head, tail, used, slot, cursor, item) =>
      && head <= slot <= cursor < tail && Within(rows, head, tail)
      && 0 <= used && config.Fits(used + item.bytes)
    case Remove(head, tail, used, slot, cursor) =>
      head <= slot <= cursor <= tail && Within(rows, head, tail + 1)
  }

  predicate Recoverable(config: Config, s: Store) {
    if s.journal.None? then Quiet(s) else JournalOk(config, s.journal.value, s.rows)
  }

  /** The rows once recovery has finished whatever the journal describes. */
  function FinalRows(s: Store): map<int, Row> {
    match s.journal
    case None => s.rows
    case Some(Insert(head, tail, used, slot, cursor, item)) => Inserted(s.rows, slot, cursor, item)
    case Some(Remove(head, tail, used, slot, cursor)) => Removed(s.rows, cursor, tail)
  }

  function FinalLo(s: Store): int {
    if s.journal.None? then NormalizeState(s.state).head - 1 else s.journal.value.head
  }

  function FinalHi(s: Store): int {
    if s.journal.None? then NormalizeState(s.state).tail + 1 else s.journal.value.tail
  }

  /** The bytes of a row and of all rows between it and the end that is not evicted from. */
  function Behind(rows: map<int, Row>, lo: int, hi: int, fromHead: bool, k: int): nat {
    if fromHead then BytesIn(rows, k, hi) else BytesIn(rows, lo, k + 1)
  }

  /** What evicting from one end leaves in `room` bytes: a row stays if and only if it and
      all rows between it and the other end fit. */
  function Kept(rows: map<int, Row>, lo: int, hi: int, room: int, fromHead: bool): map<int, Row> {
    map k | k in rows && Behind(rows, lo, hi, fromHead, k) <= room :: rows[k]
  }

  /** The rows that are left once there is room for `required` bytes. */
  function Spared(config: Config, rows: map<int, Row>, lo: int, hi: int, required: nat, fromHead: bool): map<int, Row> {
    if config.Evicts() then Kept(rows, lo, hi, config.Room(required), fromHead) else rows
  }

  /** The rows that opening the queue on store `s` must leave. */
  function Opened(config: Config, s: Store): map<int, Row> {
    Spared(config, FinalRows(s), FinalLo(s), FinalHi(s), 0, config.EvictsHead(true))
  }

  /** The item sequence that opening the queue on store `s` must produce. */
  function Meaning(config: Config, s: Store): seq<Item> {
    ItemsIn(Opened(config, s), FinalLo(s), FinalHi(s))
  }

  /** The bytes its rows are charged for. */
  function Usage(config: Config, s: Store): nat {
    BytesIn(Opened(config, s), FinalLo(s), FinalHi(s))
  }

  /** What the rows hold before the limit is looked at again. */
  function StoredItems(s: Store): seq<Item> {
    ItemsIn(FinalRows(s), FinalLo(s), FinalHi(s))
  }

  function StoredBytes(s: Store): nat {
    BytesIn(FinalRows(s), FinalLo(s), FinalHi(s))
  }

  /** The rows are within what opening the queue leaves alone. */
  predicate Lean(config: Config, rows: map<int, Row>, lo: int, hi: int) {
    config.Evicts() ==> BytesIn(rows, lo, hi) <= config.Room(0)
  }

  /** A crash that leaves `s` behind is harmless if it amounts to one of these sequences. */
  predicate Survives(config: Config, s: Store, allowed: set<seq<Item>>) {
    Recoverable(config, s) && Meaning(config, s) in allowed
  }

  // ---------------------------------------------------------------- lemmas

  lemma ItemsAt(rows: map<int, Row>, lo: int, at: int, hi: int)
    requires lo <= at < hi
    ensures ItemsIn(rows, lo, hi) == ItemsIn(rows, lo, at) + ItemAt(rows, at) + ItemsIn(rows, at + 1, hi)
  {
    SpanSplit(Items(rows), lo, at, hi);
  }

  /** Equal stretches of rows, possibly shifted, hold equal items and bytes. */
  lemma SameStretch(a: map<int, Row>, b: map<int, Row>, lo: int, hi: int, d: int)
    requires forall k :: lo <= k < hi ==> At(a, k) == At(b, k + d)
    ensures ItemsIn(a, lo, hi) == ItemsIn(b, lo + d, hi + d)
    ensures BytesIn(a, lo, hi) == BytesIn(b, lo + d, hi + d)
  {
    forall k | lo <= k < hi
      ensures At(Items(a), k) == At(Items(b), k + d) && At(Sizes(a), k) == At(Sizes(b), k + d)
    {
      assert At(a, k) == At(b, k + d);
    }
    SpanShift(Items(a), Items(b), lo, hi, d);
    SumShift(Sizes(a), Sizes(b), lo, hi, d);
  }

  /** A move cut after its first write plays on to the same rows. */
  lemma MoveResumes(rows: map<int, Row>, from: int, to: int)
    requires from in rows && from != to
    ensures Moved(rows[to := rows[from]], from, to) == Moved(rows, from, to)
    ensures Moved(Moved(rows, from, to), from, to) == Moved(rows, from, to)
  {
  }

  /** Playing an insert journal shifts the rows from `slot` on up by one. */
  lemma {:induction false} InsertedRow(rows: map<int, Row>, slot: int, cursor: int, item: Item, k: int)
    requires slot <= cursor && cursor !in rows
    ensures At(Inserted(rows, slot, cursor, item), k) ==
      if k < slot || k > cursor then At(rows, k) else if k == slot then Some(Envelope(item)) else At(rows, k - 1)
    decreases cursor - slot
  {
    if slot < cursor {
      InsertedRow(Moved(rows, cursor - 1, cursor), slot, cursor - 1, item, k);
    }
  }

  lemma InsertedStretches(rows: map<int, Row>, head: int, slot: int, tail: int, item: Item)
    requires head <= slot < tail && Within(rows, head, tail - 1)
    ensures var r := Inserted(rows, slot, tail - 1, item);
      && ItemsIn(r, head, slot) == ItemsIn(rows, head, slot)
      && ItemsIn(r, slot + 1, tail) == ItemsIn(rows, slot, tail - 1)
      && BytesIn(r, head, slot) == BytesIn(rows, head, slot)
      && BytesIn(r, slot + 1, tail) == BytesIn(rows, slot, tail - 1) && At(r, slot) == Some(Envelope(item))
  {
    var r := Inserted(rows, slot, tail - 1, item);
    InsertedRow(rows, slot, tail - 1, item, slot);
    forall k | head <= k < slot ensures At(rows, k) == At(r, k + 0) { InsertedRow(rows, slot, tail - 1, item, k); }
    SameStretch(rows, r, head, slot, 0);
    forall k | slot <= k < tail - 1 ensures At(rows, k) == At(r, k + 1) {
      InsertedRow(rows, slot, tail - 1, item, k + 1);
    }
    SameStretch(rows, r, slot, tail - 1, 1);
  }

  /** Playing an insert journal from its start puts the item before the rows from `slot` on. */
  lemma InsertedMeaning(rows: map<int, Row>, head: int, slot: int, tail: int, item: Item)
    requires head <= slot < tail && Within(rows, head, tail - 1)
    ensures ItemsIn(Inserted(rows, slot, tail - 1, item), head, tail)
         == ItemsIn(rows, head, slot) + [item] + ItemsIn(rows, slot, tail - 1)
    ensures At(Inserted(rows, slot, tail - 1, item), slot) == Some(Envelope(item))
    ensures BytesIn(Inserted(rows, slot, tail - 1, item), head, tail) == BytesIn(rows, head, tail - 1) + item.bytes
  {
    var r := Inserted(rows, slot, tail - 1, item);
    InsertedStretches(rows, head, slot, tail, item);
    ItemsAt(r, head, slot, tail);
    SumSplit(Sizes(r), head, slot, tail);
    SumSplit(Sizes(rows), head, slot, tail - 1);
  }

  /** The slot of a removal that the first move does not overwrite. */
  predicate Blocked(rows: map<int, Row>, slot: int, tail: int) {
    slot in rows && slot < tail && slot + 1 !in rows
  }

  lemma {:induction false} RemovedRow(rows: map<int, Row>, cursor: int, tail: int, k: int)
    requires cursor <= tail && !Blocked(rows, cursor, tail)
    ensures At(Removed(rows, cursor, tail), k) ==
      if k < cursor || k > tail then At(rows, k) else if k < tail then At(rows, k + 1) else None
    decreases tail - cursor
  {
    if cursor < tail {
      RemovedRow(Moved(rows, cursor + 1, cursor), cursor + 1, tail, k);
    }
  }

  /** Where a removal at `slot` begins to move rows: past a blocked slot. */
  function FirstMoved(rows: map<int, Row>, slot: int, tail: int): int {
    if Blocked(rows, slot, tail) then slot + 1 else slot
  }

  lemma RemovedFrom(rows: map<int, Row>, slot: int, tail: int, k: int)
    requires slot <= tail && k < tail
    ensures At(Removed(rows, slot, tail), k) == At(rows, if k < FirstMoved(rows, slot, tail) then k else k + 1)
  {
    var c := FirstMoved(rows, slot, tail);
    assert Removed(rows, slot, tail) == Removed(rows, c, tail);
    RemovedRow(rows, c, tail, k);
  }

  lemma RemovedStretches(rows: map<int, Row>, head: int, slot: int, tail: int)
    requires head <= slot <= tail
    ensures var r, c := Removed(rows, slot, tail), FirstMoved(rows, slot, tail);
      && ItemsIn(r, head, c) == ItemsIn(rows, head, c) && ItemsIn(r, c, tail) == ItemsIn(rows, c + 1, tail + 1)
      && BytesIn(r, head, c) == BytesIn(rows, head, c) && BytesIn(r, c, tail) == BytesIn(rows, c + 1, tail + 1)
  {
    var r, c := Removed(rows, slot, tail), FirstMoved(rows, slot, tail);
    forall k | head <= k < c ensures At(rows, k) == At(r, k + 0) { RemovedFrom(rows, slot, tail, k); }
    SameStretch(rows, r, head, c, 0);
    forall k | c <= k < tail ensures At(r, k) == At(rows, k + 1) { RemovedFrom(rows, slot, tail, k); }
    SameStretch(r, rows, c, tail, 1);
  }

  /** Playing a remove journal from its start drops exactly the row at `slot`, except
      that a slot followed by a hole keeps its row and only the hole is closed. */
  lemma RemovedMeaning(rows: map<int, Row>, head: int, slot: int, tail: int)
    requires head <= slot <= tail && Within(rows, head, tail + 1)
    ensures ItemsIn(Removed(rows, slot, tail), head, tail)
         == if Blocked(rows, slot, tail) then ItemsIn(rows, head, tail + 1)
            else ItemsIn(rows, head, slot) + ItemsIn(rows, slot + 1, tail + 1)
  {
    var c := FirstMoved(rows, slot, tail);
    RemovedStretches(rows, head, slot, tail);
    SpanSplit(Items(Removed(rows, slot, tail)), head, c, tail);
    if Blocked(rows, slot, tail) {
      ItemsAt(rows, head, c, tail + 1);
    }
  }

  /** And it charges no byte more. */
  lemma RemovedBytes(rows: map<int, Row>, head: int, slot: int, tail: int)
    requires head <= slot <= tail && Within(rows, head, tail + 1)
    ensures BytesIn(Removed(rows, slot, tail), head, tail) <= BytesIn(rows, head, tail + 1)
  {
    var c := FirstMoved(rows, slot, tail);
    RemovedStretches(rows, head, slot, tail);
    SumSplit(Sizes(Removed(rows, slot, tail)), head, c, tail);
    SumSplit(Sizes(rows), head, c, tail + 1);
  }

  lemma {:induction false} InsertedWithin(rows: map<int, Row>, head: int, slot: int, cursor: int, tail: int, item: Item)
    requires head <= slot <= cursor < tail && Within(rows, head, tail)
    ensures Within(Inserted(rows, slot, cursor, item), head, tail)
    decreases cursor - slot
  {
    if slot < cursor {
      InsertedWithin(Moved(rows, cursor - 1, cursor), head, slot, cursor - 1, tail, item);
    }
  }

  lemma {:induction false} RemovedWithin(rows: map<int, Row>, head: int, cursor: int, tail: int)
    requires head <= cursor <= tail && Within(rows, head, tail + 1)
    ensures Within(Removed(rows, cursor, tail), head, tail)
    decreases tail - cursor
  {
    if cursor < tail {
      RemovedWithin(Moved(rows, cursor + 1, cursor), head, cursor + 1, tail);
    }
  }

  /** removeAt does what it says exactly when its slot is not an item followed by a hole. */
  lemma RemoveAtExact(rows: map<int, Row>, head: int, slot: int, tail: int)
    requires head <= slot <= tail && Within(rows, head, tail + 1)
    ensures ItemsIn(Removed(rows, slot, tail), head, tail)
              == ItemsIn(rows, head, slot) + ItemsIn(rows, slot + 1, tail + 1)
       <==> !(Blocked(rows, slot, tail) && rows[slot].Envelope?)
  {
    RemovedMeaning(rows, head, slot, tail);
    ItemsAt(rows, head, slot, tail + 1);
    if Blocked(rows, slot, tail) && rows[slot].Envelope? {
      assert |ItemAt(rows, slot)| == 1;
    }
  }

  /** The smallest failing input: an item followed by a hole, then another item. */
  lemma RemoveAtBeforeHoleKeepsItem()
    ensures var a, b := Item("a", 1), Item("b", 1);
      var rows := map[0 := Envelope(a), 2 := Envelope(b)];
      ItemsIn(Removed(rows, 0, 2), 0, 2) == [a, b]
  {
  }

  lemma FinalWithin(config: Config, s: Store)
    requires Recoverable(config, s)
    ensures Within(FinalRows(s), FinalLo(s), FinalHi(s))
  {
    match s.journal {
      case None =>
      case Some(Insert(head, tail, used, slot, cursor, item)) =>
        InsertedWithin(s.rows, head, slot, cursor, tail, item);
      case Some(Remove(head, tail, used, slot, cursor)) =>
        RemovedWithin(s.rows, head, cursor, tail);
    }
  }

  lemma SameBounds(rows: map<int, Row>, a: int, b: int, c: int, d: int)
    requires Within(rows, a, b) && Within(rows, c, d)
    ensures ItemsIn(rows, a, b) == ItemsIn(rows, c, d) && BytesIn(rows, a, b) == BytesIn(rows, c, d)
  {
    SpanBounds(Items(rows), a, b, c, d);
    SumBounds(Sizes(rows), a, b, c, d);
  }

  /** Any bounds around the final rows give the meaning of a recoverable store. */
  lemma MeaningWithin(config: Config, s: Store, lo: int, hi: int)
    requires Recoverable(config, s) && Within(FinalRows(s), lo, hi)
    ensures Opened(config, s) == Spared(config, FinalRows(s), lo, hi, 0, config.EvictsHead(true))
    ensures Meaning(config, s) == ItemsIn(Opened(config, s), lo, hi)
    ensures Usage(config, s) == BytesIn(Opened(config, s), lo, hi)
    ensures StoredItems(s) == ItemsIn(FinalRows(s), lo, hi) && StoredBytes(s) == BytesIn(FinalRows(s), lo, hi)
  {
    FinalWithin(config, s);
    SameSpared(config, FinalRows(s), FinalLo(s), FinalHi(s), lo, hi, 0, config.EvictsHead(true));
    SameBounds(Opened(config, s), FinalLo(s), FinalHi(s), lo, hi);
    SameBounds(FinalRows(s), FinalLo(s), FinalHi(s), lo, hi);
  }

  /** Recoverable stores that end in the same rows mean the same. */
  lemma SameFinalRows(config: Config, s: Store, t: Store)
    requires Recoverable(config, s) && Recoverable(config, t) && FinalRows(s) == FinalRows(t)
    ensures Opened(config, s) == Opened(config, t) && Meaning(config, s) == Meaning(config, t)
    ensures Usage(config, s) == Usage(config, t) && StoredItems(s) == StoredItems(t) && StoredBytes(s) == StoredBytes(t)
  {
    FinalWithin(config, t);
    MeaningWithin(config, s, FinalLo(t), FinalHi(t));
  }

  /** A store within what opening leaves alone means what its rows hold. */
  lemma LeanMeaning(config: Config, s: Store, lo: int, hi: int)
    requires Recoverable(config, s) && Within(FinalRows(s), lo, hi) && Lean(config, FinalRows(s), lo, hi)
    ensures Opened(config, s) == FinalRows(s) && Meaning(config, s) == StoredItems(s) == ItemsIn(FinalRows(s), lo, hi)
    ensures Usage(config, s) == BytesIn(FinalRows(s), lo, hi)
  {
    MeaningWithin(config, s, lo, hi);
    if config.Evicts() { KeptAll(FinalRows(s), lo, hi, config.Room(0), config.EvictsHead(true)); }
  }

  // ------------------------------------------------------------ what eviction leaves

  lemma SameBehind(rows: map<int, Row>, a: int, b: int, c: int, d: int, fromHead: bool, k: int)
    requires Within(rows, a, b) && Within(rows, c, d) && k in rows
    ensures Behind(rows, a, b, fromHead, k) == Behind(rows, c, d, fromHead, k)
  {
    var sizes := Sizes(rows);
    if fromHead {
      var far := if b < d then d else b;
      SumSplit(sizes, k, b, far);
      SumSplit(sizes, k, d, far);
      SumEmpty(sizes, b, far);
      SumEmpty(sizes, d, far);
    } else {
      var far := if a < c then a else c;
      SumSplit(sizes, far, a, k + 1);
      SumSplit(sizes, far, c, k + 1);
      SumEmpty(sizes, far, a);
      SumEmpty(sizes, far, c);
    }
  }

  lemma SameSpared(config: Config, rows: map<int, Row>, a: int, b: int, c: int, d: int, required: nat, fromHead: bool)
    requires Within(rows, a, b) && Within(rows, c, d)
    ensures Spared(config, rows, a, b, required, fromHead) == Spared(config, rows, c, d, required, fromHead)
  {
    forall k | k in rows ensures Behind(rows, a, b, fromHead, k) == Behind(rows, c, d, fromHead, k) {
      SameBehind(rows, a, b, c, d, fromHead, k);
    }
  }

  /** Rows that fit all stay. */
  lemma KeptAll(rows: map<int, Row>, lo: int, hi: int, room: int, fromHead: bool)
    requires Within(rows, lo, hi) && BytesIn(rows, lo, hi) <= room
    ensures Kept(rows, lo, hi, room, fromHead) == rows
  {
    forall k | k in rows ensures Behind(rows, lo, hi, fromHead, k) <= room {
      SumSplit(Sizes(rows), lo, if fromHead then k else k + 1, hi);
    }
  }

  /** The rows on the far side of a cut. */
  function Cut(rows: map<int, Row>, at: int, fromHead: bool): map<int, Row> {
    map k | k in rows && (if fromHead then at <= k else k < at) :: rows[k]
  }

  lemma CutBehind(rows: map<int, Row>, lo: int, hi: int, fromHead: bool, at: int, k: int)
    requires k in Cut(rows, at, fromHead)
    ensures Behind(Cut(rows, at, fromHead), lo, hi, fromHead, k) == Behind(rows, lo, hi, fromHead, k)
  {
    var cut := Cut(rows, at, fromHead);
    if fromHead { SameStretch(cut, rows, k, hi, 0); } else { SameStretch(cut, rows, lo, k + 1, 0); }
  }

  /** Evicting half way and then again leaves what evicting at once leaves. */
  lemma CutKept(rows: map<int, Row>, lo: int, hi: int, room: int, fromHead: bool, at: int)
    requires Kept(rows, lo, hi, room, fromHead).Keys <= Cut(rows, at, fromHead).Keys
    ensures Kept(Cut(rows, at, fromHead), lo, hi, room, fromHead) == Kept(rows, lo, hi, room, fromHead)
  {
    var cut := Cut(rows, at, fromHead);
    forall k | k in cut ensures Behind(cut, lo, hi, fromHead, k) == Behind(rows, lo, hi, fromHead, k) {
      CutBehind(rows, lo, hi, fromHead, at, k);
    }
    assert forall k :: k in Kept(rows, lo, hi, room, fromHead) ==> k in cut;
  }

  /** The items on the far side of a cut. */
  function ItemsBeyond(rows: map<int, Row>, lo: int, hi: int, at: int, fromHead: bool): seq<Item> {
    if fromHead then ItemsIn(rows, at, hi) else ItemsIn(rows, lo, at)
  }

  lemma CutItems(rows: map<int, Row>, lo: int, hi: int, at: int, fromHead: bool)
    requires lo <= at <= hi
    ensures ItemsIn(Cut(rows, at, fromHead), lo, hi) == ItemsBeyond(rows, lo, hi, at, fromHead)
    ensures BytesIn(Cut(rows, at, fromHead), lo, hi) <= BytesIn(rows, lo, hi)
  {
    var cut := Cut(rows, at, fromHead);
    SpanSplit(Items(cut), lo, at, hi);
    SumSplit(Sizes(cut), lo, at, hi);
    SumSplit(Sizes(rows), lo, at, hi);
    if fromHead {
      SameStretch(cut, rows, at, hi, 0);
      SpanEmpty(Items(cut), lo, at);
      SumEmpty(Sizes(cut), lo, at);
    } else {
      SameStretch(cut, rows, lo, at, 0);
      SpanEmpty(Items(cut), at, hi);
      SumEmpty(Sizes(cut), at, hi);
    }
  }

  /** `m` is `whole` without some items of one end, and nothing of `left` is missing. */
  ghost predicate Between(m: seq<Item>, whole: seq<Item>, left: seq<Item>, fromHead: bool) {
    exists a, b {:trigger a + m, b + left} {:trigger m + a, left + b} ::
      if fromHead then whole == a + m && m == b + left else whole == m + a && m == left + b
  }

  lemma CutsBetween(rows: map<int, Row>, lo: int, hi: int, at: int, end: int, fromHead: bool)
    requires if fromHead then lo <= at <= end <= hi else lo <= end <= at <= hi
    ensures Between(ItemsBeyond(rows, lo, hi, at, fromHead), ItemsIn(rows, lo, hi),
      ItemsBeyond(rows, lo, hi, end, fromHead), fromHead)
  {
    SpanSplit(Items(rows), lo, at, hi);
    if fromHead {
      SpanSplit(Items(rows), at, end, hi);
      assert ItemsIn(rows, lo, hi) == ItemsIn(rows, lo, at) + ItemsIn(rows, at, hi);
      assert ItemsIn(rows, at, hi) == ItemsIn(rows, at, end) + ItemsIn(rows, end, hi);
    } else {
      SpanSplit(Items(rows), lo, end, at);
      assert ItemsIn(rows, lo, hi) == ItemsIn(rows, lo, at) + ItemsIn(rows, at, hi);
      assert ItemsIn(rows, lo, at) == ItemsIn(rows, lo, end) + ItemsIn(rows, end, at);
    }
  }

  /** What reopening the queue makes of `items` after `item` was added to them: an item that
      does not leave the headroom free is alone by then, and goes as well. */
  function Lasted(config: Config, item: Item, items: seq<Item>): seq<Item> {
    if config.Evicts() && item.bytes > config.Room(0) then [] else items
  }

  /** An accepted item and what was left for it stay when the queue is next opened, or all
      of it goes. */
  lemma AcceptedMeaning(config: Config, s: Store, lo: int, hi: int, at: int, item: Item, left: nat)
    requires Recoverable(config, s) && Within(FinalRows(s), lo, hi) && At(FinalRows(s), at) == Some(Envelope(item))
    requires BytesIn(FinalRows(s), lo, hi) == left + item.bytes
    requires config.Fits(item.bytes) && (config.Evicts() ==> left <= config.Room(item.bytes))
    ensures Meaning(config, s) == Lasted(config, item, StoredItems(s)) && StoredBytes(s) == left + item.bytes
  {
    MeaningWithin(config, s, lo, hi);
    if config.Evicts() {
      RoomFor(config, item.bytes);
      if item.bytes > config.Room(0) {
        OnlyRow(FinalRows(s), lo, hi, at, item);
        SpanEmpty(Items(Opened(config, s)), lo, hi);
      } else {
        LeanMeaning(config, s, lo, hi);
      }
    } else {
      LeanMeaning(config, s, lo, hi);
    }
  }

  /** When one row has all the bytes there is no other, and nothing fits in less. */
  lemma OnlyRow(rows: map<int, Row>, lo: int, hi: int, at: int, item: Item)
    requires Within(rows, lo, hi) && At(rows, at) == Some(Envelope(item)) && BytesIn(rows, lo, hi) == item.bytes
    ensures forall room, fromHead :: room < item.bytes ==> Kept(rows, lo, hi, room, fromHead) == map[]
  {
    forall k | k in rows ensures k == at {
      SumWithout(Sizes(rows), at, lo, hi);
      if k != at { SumWithout(Sizes(rows) - {at}, k, lo, hi); }
    }
    forall room, fromHead | room < item.bytes ensures Kept(rows, lo, hi, room, fromHead) == map[] {
      SumWithout(Sizes(rows), at, if fromHead then at else lo, if fromHead then hi else at + 1);
      assert Behind(rows, lo, hi, fromHead, at) >= item.bytes;
    }
  }

  /** A concrete one: fifteen bytes, the smallest envelope there is, are accepted under a limit of
      fifteen, one of them headroom, and opening the queue drops them. */
  lemma AcceptedThenLost()
    ensures var config, item := Config(Some(15), OppositeEnd), Item("{}", 15);
      var s := Store(Some(QState(0, 1, 15)), None, map[0 := Envelope(item)]);
      !config.CannotAdd(0, item.bytes) && Recoverable(config, s) && StoredItems(s) == [item] && Meaning(config, s) == []
  {
    var config, item := Config(Some(15), OppositeEnd), Item("{}", 15);
    var rows := map[0 := Envelope(item)];
    assert Tenth(15) == 1 + Tenth(5);
    var s := Store(Some(QState(0, 1, 15)), None, rows);
    assert FinalRows(s) == rows && Sizes(rows) == map[0 := 15] && Items(rows) == map[0 := item];
    assert Sum(Sizes(rows), 0, 1) == 15 + Sum(Sizes(rows), 1, 1);
    assert Span(Items(rows), 0, 1) == [item] + Span(Items(rows), 1, 1);
    MeaningWithin(config, s, 0, 1);
    AcceptedMeaning(config, s, 0, 1, 0, item, 0);
  }

  /** A row stored just outside the bounds extends the items at that end. */
  lemma AppendedMeaning(rows: map<int, Row>, head: int, tail: int, item: Item)
    requires head <= tail
    ensures ItemsIn(rows[tail := Envelope(item)], head, tail + 1) == ItemsIn(rows, head, tail) + [item]
    ensures BytesIn(rows[tail := Envelope(item)], head, tail + 1) == BytesIn(rows, head, tail) + item.bytes
  {
    var next := rows[tail := Envelope(item)];
    ItemsAt(next, head, tail, tail + 1);
    SumSplit(Sizes(next), head, tail, tail + 1);
    SameStretch(rows, next, head, tail, 0);
  }

  lemma PrependedMeaning(rows: map<int, Row>, head: int, tail: int, item: Item)
    requires head <= tail
    ensures ItemsIn(rows[head - 1 := Envelope(item)], head - 1, tail) == [item] + ItemsIn(rows, head, tail)
    ensures BytesIn(rows[head - 1 := Envelope(item)], head - 1, tail) == BytesIn(rows, head, tail) + item.bytes
  {
    SameStretch(rows, rows[head - 1 := Envelope(item)], head, tail, 0);
  }

  function Rest(items: seq<Item>): seq<Item> {
    if items == [] then [] else items[1..]
  }

  function Front(items: seq<Item>): seq<Item> {
    if items == [] then [] else items[..|items| - 1]
  }

  /** Deleting the row at the head takes the first item, if that row held one. */
  lemma FirstRow(rows: map<int, Row>, head: int, tail: int)
    requires head < tail
    ensures var all, rest := ItemsIn(rows, head, tail), ItemsIn(rows - {head}, head + 1, tail);
      if ItemAt(rows, head) == [] then rest == all
      else all != [] && [all[0]] == ItemAt(rows, head) && rest == Rest(all)
    ensures BytesIn(rows - {head}, head + 1, tail) <= BytesIn(rows, head, tail)
  {
    SameStretch(rows, rows - {head}, head + 1, tail, 0);
  }

  lemma LastRow(rows: map<int, Row>, head: int, tail: int)
    requires head < tail
    ensures var all, rest := ItemsIn(rows, head, tail), ItemsIn(rows - {tail - 1}, head, tail - 1);
      if ItemAt(rows, tail - 1) == [] then rest == all
      else all != [] && [all[|all| - 1]] == ItemAt(rows, tail - 1) && rest == Front(all)
    ensures BytesIn(rows - {tail - 1}, head, tail - 1) <= BytesIn(rows, head, tail)
  {
    SameStretch(rows, rows - {tail - 1}, head, tail - 1, 0);
    SumSplit(Sizes(rows), head, tail - 1, tail);
    ItemsAt(rows, head, tail - 1, tail);
  }

  // ------------------------------------------------------------ the bounds at hand

  function StateToWrite(state: QState, keepEmpty: bool): Option<QState> {
    if !keepEmpty && state.head >= state.tail then None else Some(state)
  }

  /** Every write of a journal's turn leaves a store that ends in the same rows. */
  lemma MovePlays(config: Config, s: Store, current: Journal)
    requires Recoverable(config, s) && s.journal == Some(current)
    requires if current.Insert? then current.cursor > current.slot else current.cursor < current.tail
    ensures var from, to := if current.Insert? then current.cursor - 1 else current.cursor + 1, current.cursor;
      var moved := s.(rows := Moved(s.rows, from, to));
      && (from in s.rows ==> SameMeaning(config, s, s.(rows := s.rows[to := s.rows[from]])))
      && SameMeaning(config, s, moved) && SameMeaning(config, s, moved.(journal := Some(current.(cursor := from))))
  {
    var from, to := if current.Insert? then current.cursor - 1 else current.cursor + 1, current.cursor;
    var moved := s.(rows := Moved(s.rows, from, to));
    if from in s.rows {
      MoveResumes(s.rows, from, to);
      SameFinalRows(config, s, s.(rows := s.rows[to := s.rows[from]]));
    }
    assert Moved(Moved(s.rows, from, to), from, to) == Moved(s.rows, from, to);
    SameFinalRows(config, s, moved);
    SameFinalRows(config, moved, moved.(journal := Some(current.(cursor := from))));
  }

  predicate SameMeaning(config: Config, s: Store, t: Store) {
    Recoverable(config, t) && FinalRows(t) == FinalRows(s) && Meaning(config, t) == Meaning(config, s)
  }

  /** Stored bounds and those at hand agree, unless the queue is empty. */
  predicate Anchored(s: Store, st: QState) {
    st.head < st.tail ==> NormalizeState(s.state).head == st.head && NormalizeState(s.state).tail == st.tail
  }

  /** The row at one end. */
  function EndOf(st: QState, atHead: bool): int { if atHead then st.head else st.tail - 1 }

  /** What a repaired queue knows about its store: both ends are occupied, or one of them is
      reserved for a row that is about to be written. */
  predicate Repaired(s: Store, st: QState, reserved: Option<int>) {
    && Quiet(s) && Anchored(s, st) && st.head <= st.tail && Within(s.rows, st.head, st.tail)
    && st.used == BytesIn(s.rows, st.head, st.tail)
    && (st.head < st.tail ==> forall atHead ::
          EndOf(st, atHead) in s.rows || reserved == Some(EndOf(st, atHead)))
  }

  /** The reserved slot is an unoccupied one at the end that eviction does not start from. */
  predicate Reserved(s: Store, st: QState, fromHead: bool, reserved: Option<int>) {
    reserved.Some? ==> st.head < st.tail && reserved.value == EndOf(st, !fromHead) && reserved.value !in s.rows
  }

  lemma RepairedIsTight(s: Store, st: QState)
    requires Repaired(s, st, None)
    ensures Tight(s.rows, st.head, st.tail)
  {
    assert st.head < st.tail ==> EndOf(st, true) in s.rows && EndOf(st, false) in s.rows;
  }

  lemma TightIsRepaired(s: Store, st: QState)
    requires Quiet(s) && Anchored(s, st) && Tight(s.rows, st.head, st.tail)
    requires st.used == BytesIn(s.rows, st.head, st.tail)
    ensures Repaired(s, st, None)
  {
  }

  lemma EvictedBytes(rows: map<int, Row>, at: int, lo: int, hi: int)
    requires at in rows && lo <= at < hi
    ensures BytesIn(rows - {at}, lo, hi) == BytesIn(rows, lo, hi) - rows[at].Bytes()
  {
    SumWithout(Sizes(rows), at, lo, hi);
    assert Sizes(rows) - {at} == Sizes(rows - {at});
  }

  /** Once the row of one end is gone and the bounds have closed in, both ends are occupied
      or reserved again. */
  lemma EndsStay(rows: map<int, Row>, st: QState, now: QState, fromHead: bool, reserved: Option<int>)
    requires st.head < st.tail && EndOf(st, fromHead) in rows && Inside(st, now, fromHead)
    requires forall atHead :: EndOf(st, atHead) in rows || reserved == Some(EndOf(st, atHead))
    requires reserved.Some? ==> reserved.value == EndOf(st, !fromHead) && reserved.value !in rows
    requires now.head < now.tail ==>
      EndOf(now, fromHead) in rows - {EndOf(st, fromHead)} || reserved == Some(EndOf(now, fromHead))
    ensures now.head < now.tail ==> forall atHead ::
      EndOf(now, atHead) in rows - {EndOf(st, fromHead)} || reserved == Some(EndOf(now, atHead))
  {
    if now.head < now.tail {
      assert EndOf(now, !fromHead) == EndOf(st, !fromHead);
      forall atHead
        ensures EndOf(now, atHead) in rows - {EndOf(st, fromHead)} || reserved == Some(EndOf(now, atHead))
      {
        assert atHead == fromHead || atHead == !fromHead;
      }
    }
  }

  function EdgeOf(st: QState, fromHead: bool): int { if fromHead then st.head else st.tail }

  /** Where the eviction loop stands, having come from `rows` and `st` to `next` and `now`:
      a cut has moved in from one end, and no row that fits has gone. */
  ghost predicate Evicting(rows: map<int, Row>, st: QState, next: map<int, Row>, now: QState, room: int,
      fromHead: bool) {
    && next == Cut(rows, EdgeOf(now, fromHead), fromHead)
    && Kept(rows, st.head, st.tail, room, fromHead).Keys <= next.Keys
    && Inside(st, now, fromHead)
  }

  predicate Inside(st: QState, now: QState, fromHead: bool) {
    && now.head <= now.tail
    && if fromHead then st.head <= now.head && now.tail == st.tail else st.head == now.head && now.tail <= st.tail
  }

  lemma EvictingNone(rows: map<int, Row>, st: QState, room: int, fromHead: bool)
    requires st.head <= st.tail && Within(rows, st.head, st.tail)
    ensures Evicting(rows, st, rows, st, room, fromHead)
  {
    assert Cut(rows, EdgeOf(st, fromHead), fromHead) == rows;
  }

  lemma EvictingMore(rows: map<int, Row>, st: QState, was: map<int, Row>, mid: QState, next: map<int, Row>,
      now: QState, room: int, fromHead: bool)
    requires Evicting(rows, st, was, mid, room, fromHead)
    requires Within(was, mid.head, mid.tail) && BytesIn(was, mid.head, mid.tail) > room
    requires EndOf(mid, fromHead) in was && next == was - {EndOf(mid, fromHead)}
    requires Inside(mid, now, fromHead) && EdgeOf(mid, fromHead) != EdgeOf(now, fromHead)
    requires Within(next, now.head, now.tail)
    ensures Evicting(rows, st, next, now, room, fromHead)
  {
    var end := EndOf(mid, fromHead);
    assert next == Cut(rows, EdgeOf(now, fromHead), fromHead);
    CutBehind(rows, st.head, st.tail, fromHead, EdgeOf(mid, fromHead), end);
    assert end !in Kept(rows, st.head, st.tail, room, fromHead);
  }

  lemma EvictingDone(rows: map<int, Row>, st: QState, next: map<int, Row>, now: QState, room: int, fromHead: bool)
    requires Evicting(rows, st, next, now, room, fromHead) && Within(rows, st.head, st.tail)
    requires Within(next, now.head, now.tail) && BytesIn(next, now.head, now.tail) <= room
    ensures next == Kept(rows, st.head, st.tail, room, fromHead)
  {
    CutKept(rows, st.head, st.tail, room, fromHead, EdgeOf(now, fromHead));
    SameBounds(next, now.head, now.tail, st.head, st.tail);
    KeptAll(next, st.head, st.tail, room, fromHead);
  }

  /** What opening the queue makes of rows within the bounds of `st`. */
  function Reopened(config: Config, rows: map<int, Row>, st: QState): seq<Item> {
    ItemsIn(Spared(config, rows, st.head, st.tail, 0, config.EvictsHead(true)), st.head, st.tail)
  }

  /** `m` is what some store means whose rows were cut no further than at `end`. */
  ghost predicate Passed(config: Config, rows: map<int, Row>, st: QState, end: int, fromHead: bool, m: seq<Item>) {
    exists at ::
      && m == Reopened(config, Cut(rows, at, fromHead), st)
      && if fromHead then st.head <= at <= end else end <= at <= st.tail
  }

  lemma PassedFurther(config: Config, rows: map<int, Row>, st: QState, end: int, further: int, fromHead: bool,
      m: seq<Item>)
    requires Passed(config, rows, st, end, fromHead, m) && if fromHead then end <= further else further <= end
    ensures Passed(config, rows, st, further, fromHead, m)
  {
  }

  /** A recovery that is cut while it evicts is done again to the same end. */
  lemma RecoveryPassed(config: Config, rows: map<int, Row>, st: QState, next: map<int, Row>, now: QState, m: seq<Item>)
    requires config.Evicts()
    requires Evicting(rows, st, next, now, config.Room(0), config.EvictsHead(true))
    requires Passed(config, rows, st, EdgeOf(now, config.EvictsHead(true)), config.EvictsHead(true), m)
    ensures m == Reopened(config, rows, st)
  {
    var fromHead := config.EvictsHead(true);
    var at :| m == Reopened(config, Cut(rows, at, fromHead), st)
      && if fromHead then st.head <= at <= EdgeOf(now, fromHead) else EdgeOf(now, fromHead) <= at <= st.tail;
    CutKept(rows, st.head, st.tail, config.Room(0), fromHead, at);
  }

  /** An operation that is cut while it evicts leaves an item sequence on the way. */
  lemma OperationPassed(config: Config, rows: map<int, Row>, st: QState, next: map<int, Row>, now: QState, room: int,
      fromHead: bool, m: seq<Item>)
    requires Evicting(rows, st, next, now, room, fromHead) && Within(rows, st.head, st.tail)
    requires Lean(config, rows, st.head, st.tail)
    requires Passed(config, rows, st, EdgeOf(now, fromHead), fromHead, m)
    ensures Between(m, ItemsIn(rows, st.head, st.tail), ItemsIn(next, st.head, st.tail), fromHead)
  {
    var end := EdgeOf(now, fromHead);
    var at :| m == Reopened(config, Cut(rows, at, fromHead), st)
      && if fromHead then st.head <= at <= end else end <= at <= st.tail;
    var cut := Cut(rows, at, fromHead);
    CutItems(rows, st.head, st.tail, at, fromHead);
    CutItems(rows, st.head, st.tail, end, fromHead);
    if config.Evicts() { KeptAll(cut, st.head, st.tail, config.Room(0), config.EvictsHead(true)); }
    CutsBetween(rows, st.head, st.tail, at, end, fromHead);
  }

  /** What evictToFit makes of `rows` within the bounds of `st`: room for `required` bytes. */
  ghost predicate Made(config: Config, rows: map<int, Row>, st: QState, next: map<int, Row>, now: QState,
      required: nat, fromHead: bool) {
    && next == Spared(config, rows, st.head, st.tail, required, fromHead)
    && now.used >= 0 && config.Fits(now.used + required) && (config.Evicts() ==> now.used <= config.Room(required))
    && Lean(config, next, now.head, now.tail)
  }

  lemma OperationsPassed(config: Config, rows: map<int, Row>, st: QState, next: map<int, Row>, now: QState, room: int,
      fromHead: bool, passed: set<seq<Item>>)
    requires Evicting(rows, st, next, now, room, fromHead) && Within(rows, st.head, st.tail)
    requires Lean(config, rows, st.head, st.tail)
    requires forall m :: m in passed ==> Passed(config, rows, st, EdgeOf(now, fromHead), fromHead, m)
    ensures forall m :: m in passed ==>
      Between(m, ItemsIn(rows, st.head, st.tail), ItemsIn(next, st.head, st.tail), fromHead)
  {
    forall m | m in passed
      ensures Between(m, ItemsIn(rows, st.head, st.tail), ItemsIn(next, st.head, st.tail), fromHead)
    {
      OperationPassed(config, rows, st, next, now, room, fromHead, m);
    }
  }

  function Grown(items: seq<Item>, item: Item, atHead: bool): seq<Item> {
    if atHead then [item] + items else items + [item]
  }

  /** What the store means once the reserved slot of `st` has its row. */
  lemma GrownMeaning(config: Config, s: Store, st: QState, item: Item, atHead: bool)
    requires Repaired(s, st, Some(EndOf(st, atHead))) && Reserved(s, st, !atHead, Some(EndOf(st, atHead)))
    requires config.Fits(item.bytes) && (config.Evicts() ==> st.used <= config.Room(item.bytes))
    ensures var t := s.(rows := s.rows[EndOf(st, atHead) := Envelope(item)]);
      && Recoverable(config, t) && StoredItems(t) == Grown(ItemsIn(s.rows, st.head, st.tail), item, atHead)
      && Meaning(config, t) == Lasted(config, item, StoredItems(t)) && Within(t.rows, st.head, st.tail)
      && StoredBytes(t) == st.used + item.bytes
  {
    var id, rows := EndOf(st, atHead), s.rows;
    var t := s.(rows := rows[id := Envelope(item)]);
    if atHead {
      PrependedMeaning(rows, id + 1, st.tail, item);
      SameBounds(rows, id, st.tail, id + 1, st.tail);
    } else {
      AppendedMeaning(rows, st.head, id, item);
      SameBounds(rows, st.head, st.tail, st.head, id);
    }
    AcceptedMeaning(config, t, st.head, st.tail, id, item, st.used);
    MeaningWithin(config, t, st.head, st.tail);
  }

  /** From `rows` within the bounds of `st` to store `t`: what eviction leaves, and the new
      item at one end. On the way there were only the steps of the eviction. */
  ghost predicate Enlarged(config: Config, rows: map<int, Row>, st: QState, was: set<seq<Item>>, t: Store,
      allowed: set<seq<Item>>, item: Item, atHead: bool) {
    var fromHead := config.EvictsHead(!atHead);
    var left := ItemsIn(Spared(config, rows, st.head, st.tail, item.bytes, fromHead), st.head, st.tail);
    && StoredItems(t) == Grown(left, item, atHead) && config.Fits(StoredBytes(t))
    && Meaning(config, t) == Lasted(config, item, StoredItems(t))
    && was <= allowed && Meaning(config, t) in allowed
    && forall m :: m in allowed - was ==>
         m == Meaning(config, t) || Between(m, ItemsIn(rows, st.head, st.tail), left, fromHead)
  }

  /** What eviction leaves is what lies beyond some cut. */
  lemma {:induction false} KeptIsCut(rows: map<int, Row>, lo: int, hi: int, room: nat, fromHead: bool) returns (at: int)
    requires Within(rows, lo, hi) && lo <= hi
    ensures lo <= at <= hi && Kept(rows, lo, hi, room, fromHead) == Cut(rows, at, fromHead)
    decreases hi - lo
  {
    if BytesIn(rows, lo, hi) <= room {
      KeptAll(rows, lo, hi, room, fromHead);
      at := if fromHead then lo else hi;
      assert Cut(rows, at, fromHead) == rows;
    } else {
      var next, l, h := if fromHead then lo + 1 else hi - 1, lo, hi;
      if fromHead { l := lo + 1; } else { h := hi - 1; }
      var cut := Cut(rows, next, fromHead);
      assert forall k :: k in Kept(rows, lo, hi, room, fromHead) ==> k in cut;
      CutKept(rows, lo, hi, room, fromHead, next);
      forall k | k in cut ensures Behind(cut, lo, hi, fromHead, k) == Behind(cut, l, h, fromHead, k) {
        SameBehind(cut, lo, hi, l, h, fromHead, k);
      }
      at := KeptIsCut(cut, l, h, room, fromHead);
      assert Cut(cut, at, fromHead) == Cut(rows, at, fromHead);
    }
  }

  /** So the items that are left are the ones at the end that is not evicted from. */
  lemma SparedItems(config: Config, rows: map<int, Row>, lo: int, hi: int, required: nat, fromHead: bool)
    requires Within(rows, lo, hi) && lo <= hi
    ensures EndOfItems(ItemsIn(Spared(config, rows, lo, hi, required, fromHead), lo, hi), ItemsIn(rows, lo, hi),
      fromHead)
  {
    var whole := ItemsIn(rows, lo, hi);
    if config.Evicts() {
      var at := KeptIsCut(rows, lo, hi, config.Room(required), fromHead);
      CutItems(rows, lo, hi, at, fromHead);
      SpanSplit(Items(rows), lo, at, hi);
      assert whole == ItemsIn(rows, lo, at) + ItemsIn(rows, at, hi);
      assert whole[|ItemsIn(rows, lo, at)|..] == ItemsIn(rows, at, hi);
      assert whole[..|ItemsIn(rows, lo, at)|] == ItemsIn(rows, lo, at);
    } else {
      assert whole[0..] == whole && whole[..|whole|] == whole;
    }
  }

  /** `some` are the last items of `whole`, or its first. */
  ghost predicate EndOfItems(some: seq<Item>, whole: seq<Item>, last: bool) {
    exists n :: 0 <= n <= |whole| && some == if last then whole[n..] else whole[..n]
  }

  /** What is left for a write of `required` bytes once the queue on store `s` is open. */
  function LeftFor(config: Config, s: Store, required: nat, fromHead: bool): seq<Item> {
    ItemsIn(Spared(config, Opened(config, s), FinalLo(s), FinalHi(s), required, fromHead), FinalLo(s), FinalHi(s))
  }

  /** What push and unshift make of store `s`, and what they may leave when cut. */
  ghost predicate Added(config: Config, s: Store, t: Store, allowed: set<seq<Item>>, item: Item, atHead: bool,
      r: Result<int, Error>) {
    var fromHead, failed := config.EvictsHead(!atHead), r.Err?;
    var left := LeftFor(config, s, item.bytes, fromHead);
    && (r.Ok? ==> Spans(t.rows, r.value))
    && (failed <==> config.CannotAdd(Usage(config, s), item.bytes))
    && StoredItems(t) == (if failed then Meaning(config, s) else Grown(left, item, atHead))
    && Meaning(config, t) == (if failed then Meaning(config, s) else Lasted(config, item, StoredItems(t)))
    && (failed ==> allowed == {Meaning(config, s)}) && (!failed ==> config.Fits(StoredBytes(t)))
    && forall m :: m in allowed ==>
         m == Meaning(config, t) || m == Meaning(config, s) || Between(m, Meaning(config, s), left, fromHead)
  }

  /** The positions from the first row to the last are `n`. */
  ghost predicate Spans(rows: map<int, Row>, n: int) {
    exists lo, hi :: Tight(rows, lo, hi) && n == hi - lo
  }

  /** Without holes and unreadable rows, that is the number of items. */
  lemma SpansItems(rows: map<int, Row>, n: int, lo: int, hi: int)
    requires Spans(rows, n) && Within(rows, lo, hi) && lo <= hi
    ensures |ItemsIn(rows, lo, hi)| <= n
    ensures (forall k, l, m :: k in rows && m in rows && k <= l <= m ==> l in rows && rows[l].Envelope?) ==>
      |ItemsIn(rows, lo, hi)| == n
  {
    var head, tail :| Tight(rows, head, tail) && n == tail - head;
    SameBounds(rows, lo, hi, head, tail);
    SpanCount(Items(rows), head, tail);
  }

  /** With the reserved slot written, both ends are occupied. */
  lemma WrittenIsTight(s: Store, st: QState, atHead: bool, row: Row)
    requires Repaired(s, st, Some(EndOf(st, atHead))) && Reserved(s, st, !atHead, Some(EndOf(st, atHead)))
    ensures Tight(s.rows[EndOf(st, atHead) := row], st.head, st.tail)
    ensures Spans(s.rows[EndOf(st, atHead) := row], st.tail - st.head)
  {
    var rows := s.rows[EndOf(st, atHead) := row];
    assert EndOf(st, !atHead) in s.rows || EndOf(st, !atHead) == EndOf(st, atHead);
    assert Tight(rows, st.head, st.tail);
  }

  lemma AddedFrom(config: Config, s: Store, st: QState, rows: map<int, Row>, t: Store, allowed: set<seq<Item>>,
      item: Item, atHead: bool, n: int)
    requires Recoverable(config, s) && rows == Opened(config, s) && Within(rows, st.head, st.tail)
    requires Meaning(config, s) == ItemsIn(rows, st.head, st.tail)
    requires Enlarged(config, rows, st, {Meaning(config, s)}, t, allowed, item, atHead)
    requires !config.CannotAdd(Usage(config, s), item.bytes)
    requires Spans(t.rows, n)
    ensures Added(config, s, t, allowed, item, atHead, Ok(n))
  {
    var fromHead := config.EvictsHead(!atHead);
    FinalWithin(config, s);
    SameSpared(config, rows, st.head, st.tail, FinalLo(s), FinalHi(s), item.bytes, fromHead);
    var left := Spared(config, rows, st.head, st.tail, item.bytes, fromHead);
    SameBounds(left, st.head, st.tail, FinalLo(s), FinalHi(s));
    assert LeftFor(config, s, item.bytes, fromHead) == ItemsIn(left, st.head, st.tail);
    forall m | m in allowed
      ensures m == Meaning(config, t) || m == Meaning(config, s)
        || Between(m, Meaning(config, s), LeftFor(config, s, item.bytes, fromHead), fromHead)
    {
      assert m in {Meaning(config, s)} || m in allowed - {Meaning(config, s)};
    }
  }

  /** Where insertAt puts an item: eviction may leave fewer rows before it. */
  function IndexAfter(index: int, st: QState): int {
    if index < st.tail - st.head then index else st.tail - st.head
  }

  function InsertedItems(rows: map<int, Row>, st: QState, index: int, item: Item): seq<Item> {
    ItemsIn(rows, st.head, st.head + index) + [item] + ItemsIn(rows, st.head + index, st.tail)
  }

  /** evictionDirectionFor: an insertion in the first half evicts from the tail. */
  predicate InsertEvictsHead(config: Config, index: int, st: QState) {
    config.EvictsHead(2 * index > st.tail - st.head)
  }

  /** The rows that are left for an insertion into `rows` within the bounds of `st`. */
  function LeftAt(config: Config, rows: map<int, Row>, st: QState, index: int, item: Item): map<int, Row> {
    Spared(config, rows, st.head, st.tail, item.bytes, InsertEvictsHead(config, index, st))
  }

  /** An item sequence that an insertion may leave, cut or not. `after` are the bounds of the
      rows that eviction leaves. */
  ghost predicate Inserting(config: Config, rows: map<int, Row>, st: QState, index: int, item: Item, after: QState,
      m: seq<Item>) {
    var left := LeftAt(config, rows, st, index, item);
    && Tight(left, after.head, after.tail)
    && (m == Lasted(config, item, InsertedItems(left, after, IndexAfter(index, after), item))
        || Between(m, ItemsIn(rows, st.head, st.tail), ItemsIn(left, after.head, after.tail),
             InsertEvictsHead(config, index, st)))
  }

  /** What an insertion makes of `rows`. */
  ghost predicate Placed(config: Config, rows: map<int, Row>, st: QState, was: set<seq<Item>>, t: Store,
      allowed: set<seq<Item>>, index: int, item: Item, after: QState) {
    var left := LeftAt(config, rows, st, index, item);
    && Tight(left, after.head, after.tail)
    && StoredItems(t) == InsertedItems(left, after, IndexAfter(index, after), item) && config.Fits(StoredBytes(t))
    && Meaning(config, t) == Lasted(config, item, StoredItems(t))
    && forall m :: m in allowed - was ==> Inserting(config, rows, st, index, item, after, m)
  }

  // ------------------------------------------------------------ what operations do

  /** What insertAt makes of store `s`, and what it may leave when cut. */
  ghost predicate InsertedAt(config: Config, s: Store, t: Store, allowed: set<seq<Item>>, index: int, item: Item,
      r: Result<int, Error>, before: QState, after: QState) {
    var rows := Opened(config, s);
    && Tight(rows, before.head, before.tail) && Meaning(config, s) == ItemsIn(rows, before.head, before.tail)
    && (r.Err? <==> !(0 <= index <= before.tail - before.head) || config.CannotAdd(Usage(config, s), item.bytes))
    && if r.Err? then Meaning(config, t) == Meaning(config, s) && allowed == {Meaning(config, s)}
       else
         && 0 <= r.value <= index && r.value <= after.tail - after.head
         && (r.value == index || r.value == after.tail - after.head)
         && StoredItems(t) == InsertedItems(LeftAt(config, rows, before, index, item), after, r.value, item)
         && Placed(config, rows, before, {Meaning(config, s)}, t, allowed, index, item, after)
  }

  /** Into rows without holes, when nothing has to go for it, an item goes exactly where the
      index says. */
  lemma InsertedWhole(config: Config, s: Store, t: Store, allowed: set<seq<Item>>, index: int, item: Item,
      r: Result<int, Error>, before: QState, after: QState)
    requires InsertedAt(config, s, t, allowed, index, item, r, before, after) && r.Ok?
    requires LeftAt(config, Opened(config, s), before, index, item) == Opened(config, s)
    requires forall k :: before.head <= k < before.tail ==> k in Opened(config, s) && Opened(config, s)[k].Envelope?
    ensures var items := Meaning(config, s);
      && r.value == index <= |items| == before.tail - before.head
      && StoredItems(t) == items[..index] + [item] + items[index..]
  {
    var rows := Opened(config, s);
    var items, at := ItemsIn(rows, before.head, before.tail), before.head + index;
    SpanCount(Items(rows), before.head, before.tail);
    SpanCount(Items(rows), before.head, at);
    SpanSplit(Items(rows), before.head, at, before.tail);
    if before.head < before.tail {
      assert after.head == before.head && after.tail == before.tail;
    } else {
      SameBounds(rows, before.head, before.tail, after.head, after.tail);
      SpanSplit(Items(rows), after.head, after.head + r.value, after.tail);
      SpanCount(Items(rows), after.head, after.tail);
      assert forall k :: k !in rows;
    }
  }

  /** What removeAt makes of store `s`, and what it may leave when cut. */
  ghost predicate RemovedAt(config: Config, s: Store, t: Store, allowed: set<seq<Item>>, index: int,
      r: Result<Option<Item>, Error>, before: QState) {
    var rows, slot := Opened(config, s), before.head + index;
    && Tight(rows, before.head, before.tail) && Meaning(config, s) == ItemsIn(rows, before.head, before.tail)
    && (r.Err? <==> !(0 <= index < before.tail - before.head))
    && (r.Ok? ==> ItemAt(rows, slot) == if r.value.Some? then [r.value.value] else [])
    && Meaning(config, t) == (
         if r.Err? || Blocked(rows, slot, before.tail - 1) then Meaning(config, s)
         else ItemsIn(rows, before.head, slot) + ItemsIn(rows, slot + 1, before.tail))
    && allowed == {Meaning(config, s), Meaning(config, t)}
  }

  datatype Operation =
    | Push(item: Item) | Unshift(item: Item) | Shift | Pop
    | InsertAt(index: int, item: Item) | RemoveAt(index: int)

  /** What an operation on store `s` may leave, cut or not. */
  ghost predicate Possible(config: Config, operation: Operation, s: Store, m: seq<Item>) {
    var items := Meaning(config, s);
    || m == items
    || match operation
       case Push(item) => Adding(config, s, item, false, m)
       case Unshift(item) => Adding(config, s, item, true, m)
       case Shift => m == Rest(items)
       case Pop => m == Front(items)
       case InsertAt(index, item) =>
         exists before: QState, after: QState :: Tight(Opened(config, s), before.head, before.tail)
           && 0 <= index <= before.tail - before.head
           && Inserting(config, Opened(config, s), before, index, item, after, m)
       case RemoveAt(index) =>
         exists before: QState :: Tight(Opened(config, s), before.head, before.tail)
           && 0 <= index < before.tail - before.head
           && m == ItemsIn(Opened(config, s), before.head, before.head + index)
             + ItemsIn(Opened(config, s), before.head + index + 1, before.tail)
  }

  /** An item that was accepted is still there when the queue is next opened exactly when
      nothing is evicted, or it leaves the headroom free. */
  lemma AcceptedLasts(config: Config, s: Store, t: Store, allowed: set<seq<Item>>, item: Item, atHead: bool, n: int)
    requires Added(config, s, t, allowed, item, atHead, Ok(n))
    ensures item in StoredItems(t)
    ensures item in Meaning(config, t) <==> !config.Evicts() || item.bytes <= config.Room(0)
  {
    var left := LeftFor(config, s, item.bytes, config.EvictsHead(!atHead));
    assert StoredItems(t)[if atHead then 0 else |left|] == item;
  }

  /** Which items go for an addition: of the end opposite to it, unless the policy names an
      end. Opening a queue takes the first items away, unless the policy names the tail. */
  lemma GoneByPolicy(config: Config, s: Store, t: Store, allowed: set<seq<Item>>, item: Item, atHead: bool, n: int)
    requires Recoverable(config, s) && Added(config, s, t, allowed, item, atHead, Ok(n))
    ensures var whole, all := Meaning(config, s), StoredItems(t); exists left ::
      && all == (if atHead then [item] + left else left + [item])
      && (config.policy.Reject? || config.limit.None? ==> left == whole)
      && EndOfItems(left, whole, config.policy.HeadEnd? || (!config.policy.TailEnd? && !atHead))
  {
    var fromHead := config.EvictsHead(!atHead);
    FinalWithin(config, s);
    var lo, hi := FinalLo(s), if FinalHi(s) < FinalLo(s) then FinalLo(s) else FinalHi(s);
    SameBounds(Opened(config, s), FinalLo(s), FinalHi(s), lo, hi);
    SameSpared(config, Opened(config, s), FinalLo(s), FinalHi(s), lo, hi, item.bytes, fromHead);
    SameBounds(Spared(config, Opened(config, s), lo, hi, item.bytes, fromHead), FinalLo(s), FinalHi(s), lo, hi);
    SparedItems(config, Opened(config, s), lo, hi, item.bytes, fromHead);
    var left := LeftFor(config, s, item.bytes, fromHead);
    assert EndOfItems(left, Meaning(config, s), fromHead);
  }

  /** An insertion in the first half takes the last items away, one in the second half the
      first, unless the policy names an end. */
  lemma PlacedByPolicy(config: Config, rows: map<int, Row>, st: QState, index: int, item: Item)
    requires Tight(rows, st.head, st.tail)
    ensures EndOfItems(ItemsIn(LeftAt(config, rows, st, index, item), st.head, st.tail),
      ItemsIn(rows, st.head, st.tail),
      config.policy.HeadEnd? || (!config.policy.TailEnd? && index > st.tail - st.head - index))
  {
    SparedItems(config, rows, st.head, st.tail, item.bytes, InsertEvictsHead(config, index, st));
  }

  lemma OpenedByPolicy(config: Config, s: Store)
    requires Recoverable(config, s)
    ensures EndOfItems(Meaning(config, s), StoredItems(s), !config.policy.TailEnd?)
    ensures config.policy.Reject? || config.limit.None? ==> Meaning(config, s) == StoredItems(s)
  {
    FinalWithin(config, s);
    var lo, hi := FinalLo(s), if FinalHi(s) < FinalLo(s) then FinalLo(s) else FinalHi(s);
    MeaningWithin(config, s, lo, hi);
    SparedItems(config, FinalRows(s), lo, hi, 0, config.EvictsHead(true));
  }

  lemma AddedPossible(config: Config, s: Store, t: Store, allowed: set<seq<Item>>, item: Item, atHead: bool,
      r: Result<int, Error>)
    requires Added(config, s, t, allowed, item, atHead, r)
    ensures forall m :: m in allowed ==> Possible(config, if atHead then Unshift(item) else Push(item), s, m)
  {
    forall m | m in allowed ensures m == Meaning(config, s) || Adding(config, s, item, atHead, m) {
    }
  }

  lemma InsertedPossible(config: Config, s: Store, t: Store, allowed: set<seq<Item>>, index: int, item: Item,
      r: Result<int, Error>, before: QState, after: QState)
    requires InsertedAt(config, s, t, allowed, index, item, r, before, after)
    ensures forall m :: m in allowed ==> Possible(config, InsertAt(index, item), s, m)
  {
    forall m | m in allowed && m != Meaning(config, s) ensures Possible(config, InsertAt(index, item), s, m) {
      assert m in allowed - {Meaning(config, s)};
      assert Inserting(config, Opened(config, s), before, index, item, after, m);
    }
  }

  lemma RemovedPossible(config: Config, s: Store, t: Store, allowed: set<seq<Item>>, index: int,
      r: Result<Option<Item>, Error>, before: QState)
    requires RemovedAt(config, s, t, allowed, index, r, before)
    ensures forall m :: m in allowed ==> Possible(config, RemoveAt(index), s, m)
  {
  }

  ghost predicate Adding(config: Config, s: Store, item: Item, atHead: bool, m: seq<Item>) {
    var fromHead := config.EvictsHead(!atHead);
    var left := LeftFor(config, s, item.bytes, fromHead);
    m == Lasted(config, item, Grown(left, item, atHead)) || Between(m, Meaning(config, s), left, fromHead)
  }
}
