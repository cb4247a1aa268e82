/** Cutting newline-framed rows into chunks of a fixed size, and draining the lines
    back out of chunks that arrive in any order. */
module Fragments {
  import opened Arithmetic
  import opened Pieces

  // ------------------------------------------------------------ specification

  /** A row as the sender writes it: not empty, and without a line break of its own. */
  predicate IsRow(row: string) {
    row != "" && '\n' !in row
  }

  function Framed(rows: seq<string>): string {
    if rows == [] then "" else Framed(rows[..|rows| - 1]) + rows[|rows| - 1] + "\n"
  }

  function Concat(chunks: seq<string>): string {
    if chunks == [] then "" else Concat(chunks[..|chunks| - 1]) + chunks[|chunks| - 1]
  }

  /** The first line break at or after `start`, or the length when there is none. */
  function IndexOf(text: string, start: nat): (end: nat)
    requires start <= |text|
    ensures start <= end <= |text|
    decreases |text| - start
  {
    if start == |text| || text[start] == '\n' then start else IndexOf(text, start + 1)
  }

  /** The non-empty lines a text completes from `start` on. */
  function LinesFrom(text: string, start: nat): seq<string>
    requires start <= |text|
    decreases |text| - start
  {
    var end := IndexOf(text, start);
    if end == |text| then []
    else (if start == end then [] else [text[start..end]]) + LinesFrom(text, end + 1)
  }

  /** What follows the last line break. */
  function CarryFrom(text: string, start: nat): string
    requires start <= |text|
    decreases |text| - start
  {
    var end := IndexOf(text, start);
    if end == |text| then text[start..] else CarryFrom(text, end + 1)
  }

  function Lines(text: string): seq<string> { LinesFrom(text, 0) }

  function Carry(text: string): string { CarryFrom(text, 0) }

  // ------------------------------------------------------------------- lemmas

  lemma {:induction false} IndexOfIs(text: string, start: nat)
    requires start <= |text|
    ensures forall i :: start <= i < IndexOf(text, start) ==> text[i] != '\n'
    ensures IndexOf(text, start) < |text| ==> text[IndexOf(text, start)] == '\n'
    decreases |text| - start
  {
    if start < |text| && text[start] != '\n' {
      IndexOfIs(text, start + 1);
    }
  }

  lemma IndexOfUnique(text: string, start: nat, end: nat)
    requires start <= end <= |text|
    requires forall i :: start <= i < end ==> text[i] != '\n'
    requires end < |text| ==> text[end] == '\n'
    ensures IndexOf(text, start) == end
  {
    IndexOfIs(text, start);
  }

  /** The first line break does not depend on what is before the start or after the break. */
  lemma IndexOfShift(text: string, cut: nat, start: nat)
    requires cut <= start <= |text|
    ensures IndexOf(text[cut..], start - cut) == IndexOf(text, start) - cut
  {
    IndexOfIs(text, start);
    IndexOfUnique(text[cut..], start - cut, IndexOf(text, start) - cut);
  }

  lemma IndexOfPrefix(a: string, b: string, start: nat)
    requires start <= |a| && IndexOf(a, start) < |a|
    ensures IndexOf(a + b, start) == IndexOf(a, start)
  {
    IndexOfIs(a, start);
    IndexOfUnique(a + b, start, IndexOf(a, start));
  }

  /** The line that ends at `end`, if it is one. */
  function LineAt(text: string, start: nat, end: nat): seq<string>
    requires start <= end <= |text|
  {
    if start == end then [] else [text[start..end]]
  }

  lemma LinesNext(text: string, start: nat, end: nat)
    requires start <= end < |text| && end == IndexOf(text, start)
    ensures LinesFrom(text, start) == LineAt(text, start, end) + LinesFrom(text, end + 1)
  {
  }

  lemma CarryNext(text: string, start: nat, end: nat)
    requires start <= end < |text| && end == IndexOf(text, start)
    ensures CarryFrom(text, start) == CarryFrom(text, end + 1)
  {
  }

  lemma {:induction false} LinesShift(text: string, cut: nat, start: nat)
    requires cut <= start <= |text|
    ensures LinesFrom(text, start) == LinesFrom(text[cut..], start - cut)
    decreases |text| - start
  {
    var end := IndexOf(text, start);
    IndexOfShift(text, cut, start);
    if end < |text| {
      LinesNext(text, start, end);
      LinesNext(text[cut..], start - cut, end - cut);
      assert text[cut..][start - cut..end - cut] == text[start..end];
      LinesShift(text, cut, end + 1);
    }
  }

  lemma {:induction false} CarryShift(text: string, cut: nat, start: nat)
    requires cut <= start <= |text|
    ensures CarryFrom(text, start) == CarryFrom(text[cut..], start - cut)
    decreases |text| - start
  {
    var end := IndexOf(text, start);
    IndexOfShift(text, cut, start);
    if end == |text| {
      assert text[cut..][start - cut..] == text[start..];
    } else {
      CarryNext(text, start, end);
      CarryNext(text[cut..], start - cut, end - cut);
      CarryShift(text, cut, end + 1);
    }
  }

  lemma {:induction false} LinesStreamFrom(a: string, b: string, start: nat)
    requires start <= |a|
    ensures LinesFrom(a + b, start) == LinesFrom(a, start) + Lines(CarryFrom(a, start) + b)
    decreases |a| - start
  {
    var end := IndexOf(a, start);
    if end == |a| {
      LinesShift(a + b, start, start);
      assert (a + b)[start..] == a[start..] + b;
      assert LinesFrom(a, start) == [];
    } else {
      IndexOfPrefix(a, b, start);
      assert (a + b)[start..end] == a[start..end];
      LinesNext(a + b, start, end);
      LinesNext(a, start, end);
      CarryNext(a, start, end);
      LinesStreamFrom(a, b, end + 1);
      Regroup(LineAt(a, start, end), LinesFrom(a, end + 1), Lines(CarryFrom(a, end + 1) + b));
    }
  }

  lemma {:induction false} CarryStreamFrom(a: string, b: string, start: nat)
    requires start <= |a|
    ensures CarryFrom(a + b, start) == Carry(CarryFrom(a, start) + b)
    decreases |a| - start
  {
    var end := IndexOf(a, start);
    if end == |a| {
      CarryShift(a + b, start, start);
      assert (a + b)[start..] == a[start..] + b;
    } else {
      IndexOfPrefix(a, b, start);
      CarryNext(a + b, start, end);
      CarryNext(a, start, end);
      CarryStreamFrom(a, b, end + 1);
    }
  }

  /** Lines can be taken out of a stream piece by piece, keeping only the carry. */
  lemma LinesStream(a: string, b: string)
    ensures Lines(a + b) == Lines(a) + Lines(Carry(a) + b)
    ensures Carry(a + b) == Carry(Carry(a) + b)
  {
    LinesStreamFrom(a, b, 0);
    CarryStreamFrom(a, b, 0);
  }

  lemma LinesOfRow(row: string)
    requires IsRow(row)
    ensures Lines(row + "\n") == [row] && Carry(row + "\n") == ""
  {
    var text := row + "\n";
    IndexOfUnique(text, 0, |row|);
    assert text[0..|row|] == row && text[|text|..] == "";
    assert LinesFrom(text, |text|) == [] && CarryFrom(text, |text|) == "";
  }

  lemma LinesOfNextRow(text: string, row: string)
    requires IsRow(row) && Carry(text) == ""
    ensures Lines(text + (row + "\n")) == Lines(text) + [row] && Carry(text + (row + "\n")) == ""
  {
    LinesOfRow(row);
    LinesStream(text, row + "\n");
    assert Carry(text) + (row + "\n") == row + "\n";
  }

  lemma {:induction false} LinesOfFramed(rows: seq<string>)
    requires forall row :: row in rows ==> IsRow(row)
    ensures Lines(Framed(rows)) == rows && Carry(Framed(rows)) == ""
  {
    if rows != [] {
      var init, row := rows[..|rows| - 1], rows[|rows| - 1];
      LinesOfFramed(init);
      assert Framed(rows) == Framed(init) + (row + "\n");
      LinesOfNextRow(Framed(init), row);
    }
  }

  lemma {:induction false} ConcatLength(chunks: seq<string>, size: nat)
    requires forall c :: c in chunks ==> |c| == size
    ensures |Concat(chunks)| == |chunks| * size
  {
    if chunks != [] {
      ConcatLength(chunks[..|chunks| - 1], size);
      assert |Concat(chunks)| == (|chunks| - 1) * size + |chunks[|chunks| - 1]|;
      assert (|chunks| - 1) * size == |chunks| * size - size;
    } else {
      assert 0 * size == 0;
    }
  }

  lemma FramedPush(rows: seq<string>, k: nat)
    requires k < |rows|
    ensures Framed(rows[..k + 1]) == Framed(rows[..k]) + (rows[k] + "\n")
  {
    assert rows[..k + 1][..k] == rows[..k];
    assert Framed(rows[..k + 1]) == Framed(rows[..k]) + rows[k] + "\n";
  }

  /** Full chunks and a shorter rest number as many as the length rounded up. */
  lemma ChunkTotal(length: nat, size: nat, full: nat, rest: nat)
    requires size > 0 && length == full * size + rest && rest < size
    ensures CeilDiv(length, size) == full + if rest > 0 then 1 else 0
  {
    var q := full + if rest > 0 then 1 else 0;
    assert (q - 1) * size == q * size - size;
    assert rest > 0 ==> q * size == full * size + size;
    CeilDivUnique(length, size, q);
  }

  // --------------------------------------------------------------- the sender

  /** preparedChunkCount: computed from the row lengths alone. */
  method PreparedChunkCount(rows: seq<string>, chunkBytes: nat) returns (count: nat)
    requires chunkBytes > 0
    ensures count == if rows == [] then 1 else CeilDiv(|Framed(rows)|, chunkBytes)
  {
    var bytes := 0;
    for k := 0 to |rows|
      invariant bytes == |Framed(rows[..k])| && bytes >= k
    {
      FramedPush(rows, k);
      bytes := bytes + |rows[k]| + 1;
    }
    assert rows[..|rows|] == rows;
    count := CeilDiv(bytes, chunkBytes);
    CeilDivBounds(bytes, chunkBytes);
    if bytes == 0 {
      CeilDivUnique(0, chunkBytes, 0);
    } else if count <= 0 {
      MulMonotone(count, 0, chunkBytes);
    }
    if count < 1 { count := 1; }
  }

  /** The inner loop of preparedChunks: fills chunks up with the bytes of one framed row. */
  method AppendRow(full: seq<string>, partial: string, row: string, chunkBytes: nat)
    returns (chunks: seq<string>, chunk: string)
    requires |partial| < chunkBytes && forall c :: c in full ==> |c| == chunkBytes
    ensures Concat(chunks) + chunk == Concat(full) + partial + row
    ensures |chunk| < chunkBytes && forall c :: c in chunks ==> |c| == chunkBytes
  {
    chunks, chunk := full, partial;
    var offset := 0;
    ghost var start := Concat(full) + partial;
    while offset < |row|
      invariant offset <= |row|
      invariant Concat(chunks) + chunk == start + row[..offset]
      invariant forall c :: c in chunks ==> |c| == chunkBytes
      invariant |chunk| < chunkBytes
    {
      var size := if chunkBytes - |chunk| < |row| - offset then chunkBytes - |chunk| else |row| - offset;
      var piece := row[offset..offset + size];
      assert row[..offset + size] == row[..offset] + piece;
      Regroup(Concat(chunks), chunk, piece);
      Regroup(start, row[..offset], piece);
      chunk := chunk + piece;
      offset := offset + size;
      if |chunk| == chunkBytes {
        chunks := chunks + [chunk];
        chunk := "";
      }
    }
    assert row[..|row|] == row;
  }

  /** preparedChunks: the framed rows cut into chunks of `chunkBytes`, the last one shorter. */
  method PreparedChunks(rows: seq<string>, chunkBytes: nat) returns (chunks: seq<string>)
    requires chunkBytes > 0
    ensures Concat(chunks) == Framed(rows)
    ensures forall i :: 0 <= i < |chunks| ==> 0 < |chunks[i]| <= chunkBytes
    ensures forall i :: 0 <= i < |chunks| - 1 ==> |chunks[i]| == chunkBytes
    ensures |chunks| == CeilDiv(|Framed(rows)|, chunkBytes)
  {
    chunks := [];
    var chunk := "";
    for k := 0 to |rows|
      invariant Concat(chunks) + chunk == Framed(rows[..k])
      invariant forall c :: c in chunks ==> |c| == chunkBytes
      invariant |chunk| < chunkBytes
    {
      FramedPush(rows, k);
      chunks, chunk := AppendRow(chunks, chunk, rows[k] + "\n", chunkBytes);
    }
    assert rows[..|rows|] == rows;
    ConcatLength(chunks, chunkBytes);
    ChunkTotal(|Framed(rows)|, chunkBytes, |chunks|, |chunk|);
    if |chunk| > 0 {
      chunks := chunks + [chunk];
    }
  }

  // ------------------------------------------------------------- the receiver

  /** The lines of some of the chunks are a prefix of the lines of all of them. */
  lemma {:induction false} LinesPrefix(chunks: seq<string>, k: nat)
    requires k <= |chunks|
    ensures Lines(Concat(chunks[..k])) <= Lines(Concat(chunks))
    decreases |chunks| - k
  {
    if k == |chunks| {
      assert chunks[..k] == chunks;
    } else {
      assert chunks[..k + 1] == chunks[..k] + [chunks[k]];
      LinesStream(Concat(chunks[..k]), chunks[k]);
      LinesPrefix(chunks, k + 1);
    }
  }

  /** Whether onLine let every line but perhaps the last pass. */
  ghost predicate Passed(stops: (string, nat) -> bool, delivered: seq<string>, from: nat, to: nat) {
    forall k :: from <= k < to && k < |delivered| ==> !stops(delivered[k], k)
  }

  /** One stored group: the chunks received so far and the state of the incremental drain.
      `delivered` records the lines handed to onLine, whose k-th call carries row index k. */
  class Group {
    const total: nat
    var chunks: map<nat, string>
    var nextIndex: nat
    var rowIndex: nat
    var carry: string
    var delivered: seq<string>
    ghost const rows: seq<string>
    ghost const sent: seq<string>

    ghost predicate Valid()
      reads this
    {
      && |sent| == total && Concat(sent) == Framed(rows) && (forall row :: row in rows ==> IsRow(row))
      && (forall i :: i in chunks ==> i < total && chunks[i] == sent[i])
      && nextIndex <= total && (forall i: nat :: i < nextIndex ==> i in chunks)
      && rowIndex == |delivered|
      && delivered == Lines(Concat(sent[..nextIndex]))
      && carry == Carry(Concat(sent[..nextIndex]))
    }

    constructor (ghost rows: seq<string>, ghost sent: seq<string>, total: nat)
      requires |sent| == total && Concat(sent) == Framed(rows) && forall row :: row in rows ==> IsRow(row)
      ensures Valid() && chunks == map[] && this.rows == rows && this.sent == sent && this.total == total
    {
      this.rows, this.sent, this.total := rows, sent, total;
      chunks, nextIndex, rowIndex, carry, delivered := map[], 0, 0, "", [];
    }

    /** Stores a chunk unless its index is out of range or already held. */
    method Put(index: nat, bytes: string) returns (ok: bool)
      requires Valid() && (index < total ==> bytes == sent[index])
      modifies this`chunks
      ensures Valid() && (ok <==> index < total)
      ensures chunks.Keys == old(chunks.Keys) + if ok then {index} else {}
    {
      if index >= total { return false; }
      if index !in chunks {
        chunks := chunks[index := bytes];
      }
      ok := true;
    }

    /** The caller's callback: sees a line and its row index, and may ask to stop. */
    method OnLine(line: string, index: nat, stops: (string, nat) -> bool) returns (stop: bool)
      requires index == |delivered|
      modifies this`delivered
      ensures delivered == old(delivered) + [line] && stop == stops(line, index)
    {
      delivered := delivered + [line];
      stop := stops(line, index);
    }

    /** The line loop of a drain over the carry and one more chunk. */
    method DeliverLines(text: string, stops: (string, nat) -> bool) returns (stopped: bool)
      requires rowIndex == |delivered|
      modifies this`rowIndex, this`carry, this`delivered
      ensures rowIndex == |delivered|
      ensures old(delivered) <= delivered <= old(delivered) + Lines(text)
      ensures !stopped ==> delivered == old(delivered) + Lines(text) && carry == Carry(text)
      ensures stopped ==> |delivered| > |old(delivered)| && stops(delivered[|delivered| - 1], |delivered| - 1)
      ensures Passed(stops, delivered, |old(delivered)|, if stopped then |delivered| - 1 else |delivered|)
    {
      var start := 0;
      var end := IndexOf(text, start);
      ghost var all := delivered + Lines(text);
      while end < |text|
        invariant start <= end <= |text| && end == IndexOf(text, start)
        invariant delivered + LinesFrom(text, start) == all && Carry(text) == CarryFrom(text, start)
        invariant rowIndex == |delivered| && old(delivered) <= delivered
        invariant Passed(stops, delivered, |old(delivered)|, |delivered|)
        decreases |text| - start
      {
        var line := text[start..end];
        start := end + 1;
        if line != "" {
          assert delivered + ([line] + LinesFrom(text, start)) == delivered + [line] + LinesFrom(text, start);
          var stop := OnLine(line, rowIndex, stops);
          rowIndex := rowIndex + 1;
          if stop { return true; }
        }
        end := IndexOf(text, start);
      }
      carry := text[start..];
      stopped := false;
    }

    /** The turn of a drain that reads the next chunk and commits what it completed. */
    method DrainChunk(stops: (string, nat) -> bool) returns (stopped: bool)
      requires Valid() && nextIndex < total && nextIndex in chunks
      modifies this`nextIndex, this`rowIndex, this`carry, this`delivered
      ensures old(delivered) <= delivered <= rows
      ensures if stopped then nextIndex == old(nextIndex) else Valid() && nextIndex == old(nextIndex) + 1
      ensures stopped ==> |delivered| > 0 && stops(delivered[|delivered| - 1], |delivered| - 1)
      ensures Passed(stops, delivered, |old(delivered)|, if stopped then |delivered| - 1 else |delivered|)
    {
      NextChunk(sent, nextIndex, rows);
      stopped := DeliverLines(carry + chunks[nextIndex], stops);
      if !stopped { nextIndex := nextIndex + 1; }
    }

    /** drainAvailable: hands over the lines completed by the chunks at hand, in order, up to
        the first chunk that is missing. Completes exactly when every chunk has come;
        stopping leaves a prefix delivered. */
    method Drain(stops: (string, nat) -> bool) returns (complete: bool, stopped: bool)
      requires Valid()
      modifies this`nextIndex, this`rowIndex, this`carry, this`delivered
      ensures delivered <= rows && |old(delivered)| <= |delivered|
      ensures !stopped ==> Valid() && (complete <==> forall i: nat :: i < total ==> i in chunks)
      ensures !stopped ==> nextIndex == total || nextIndex !in chunks
      ensures complete ==> !stopped && delivered == rows
      ensures stopped ==> |delivered| > 0 && stops(delivered[|delivered| - 1], |delivered| - 1)
      ensures Passed(stops, delivered, |old(delivered)|, if stopped then |delivered| - 1 else |delivered|)
    {
      LinesOfFramed(rows);
      LinesPrefix(sent, nextIndex);
      while nextIndex < total && nextIndex in chunks
        invariant Valid() && old(delivered) <= delivered <= rows
        invariant Passed(stops, delivered, |old(delivered)|, |delivered|)
        decreases total - nextIndex
      {
        stopped := DrainChunk(stops);
        if stopped { return false, true; }
      }
      stopped := false;
      complete := nextIndex >= total;
      if complete {
        assert sent[..nextIndex] == sent;
        if carry != "" {
          // Never: the last framed row ends in a line break.
          assert false;
        }
      }
    }
  }

  lemma NextChunk(sent: seq<string>, k: nat, rows: seq<string>)
    requires k < |sent| && Concat(sent) == Framed(rows) && forall row :: row in rows ==> IsRow(row)
    ensures var prefix := Concat(sent[..k]);
      Lines(Concat(sent[..k + 1])) == Lines(prefix) + Lines(Carry(prefix) + sent[k]) <= rows
      && Carry(Concat(sent[..k + 1])) == Carry(Carry(prefix) + sent[k])
  {
    assert sent[..k + 1] == sent[..k] + [sent[k]];
    LinesStream(Concat(sent[..k]), sent[k]);
    LinesPrefix(sent, k + 1);
    LinesOfFramed(rows);
  }

  /** What happens to a group: a chunk arrives, or someone drains it. */
  datatype Step = Arrive(index: nat) | DrainNow

  function Arrived(schedule: seq<Step>): set<nat> {
    set k | 0 <= k < |schedule| && schedule[k].Arrive? :: schedule[k].index
  }

  /** Rows cut up, delivered chunk by chunk in any order with repeats, drained at any
      moments: the drain after the last arrival has handed over exactly the lines of the
      unbroken run of chunks from the first, and completes exactly when every chunk has
      come; then onLine has seen every row once, in order, under its own index. */
  method Transfer(rows: seq<string>, chunkBytes: nat, schedule: seq<Step>)
    returns (complete: bool, delivered: seq<string>, count: nat, ghost run: nat)
    requires chunkBytes > 0 && rows != [] && forall row :: row in rows ==> IsRow(row)
    ensures complete <==> forall i: nat :: i < count ==> i in Arrived(schedule)
    ensures delivered <= rows && (complete ==> delivered == rows)
    ensures count == CeilDiv(|Framed(rows)|, chunkBytes)
    ensures run <= count && (forall i: nat :: i < run ==> i in Arrived(schedule))
    ensures run < count ==> run !in Arrived(schedule)
    ensures Whole(rows, delivered, run * chunkBytes)
  {
    var chunks := PreparedChunks(rows, chunkBytes);
    count := PreparedChunkCount(rows, chunkBytes);
    var group := new Group(rows, chunks, count);
    for k := 0 to |schedule|
      invariant group.Valid() && group.total == count && group.rows == rows && group.sent == chunks
      invariant forall i :: i in group.chunks <==> i in Arrived(schedule[..k]) && i < count
    {
      ArrivedPush(schedule, k);
      match schedule[k] {
        case Arrive(index) =>
          var ok := group.Put(index, if index < |chunks| then chunks[index] else "");
        case DrainNow =>
          var c, s := group.Drain((line, n) => false);
      }
    }
    assert schedule[..|schedule|] == schedule;
    var stopped;
    complete, stopped := group.Drain((line, n) => false);
    delivered, run := group.delivered, group.nextIndex;
    WholeLines(rows, chunks, chunkBytes, run);
  }

  /** The rows that lie as a whole, break included, in the first `n` characters of all. */
  ghost predicate Whole(rows: seq<string>, some: seq<string>, n: nat) {
    && |some| <= |rows| && some == rows[..|some|] && |Framed(some)| <= n
    && (|some| < |rows| ==> |Framed(rows[..|some| + 1])| > n)
  }

  lemma WholeLines(rows: seq<string>, chunks: seq<string>, size: nat, k: nat)
    requires k <= |chunks| && Concat(chunks) == Framed(rows) && forall row :: row in rows ==> IsRow(row)
    requires forall i :: 0 <= i < |chunks| - 1 ==> |chunks[i]| == size
    requires forall i :: 0 <= i < |chunks| ==> |chunks[i]| <= size
    ensures Whole(rows, Lines(Concat(chunks[..k])), k * size)
  {
    LeadingChunks(chunks, size, k);
    LinesOfLeading(rows, k * size);
  }

  /** The first `n` characters, or all when there are fewer. */
  function Leading(text: string, n: nat): string {
    if n <= |text| then text[..n] else text
  }

  /** The lines of the beginning of framed rows are the rows that lie in it as a whole. */
  lemma {:induction false} LinesOfLeading(rows: seq<string>, n: nat)
    requires forall row :: row in rows ==> IsRow(row)
    ensures Whole(rows, Lines(Leading(Framed(rows), n)), n)
  {
    LinesOfFramed(rows);
    if n < |Framed(rows)| {
      var last := |rows| - 1;
      var init, row := rows[..last], rows[last];
      assert Framed(rows) == Framed(init) + (row + "\n") && rows[..last + 1] == rows;
      if n < |Framed(init)| {
        assert Leading(Framed(rows), n) == Leading(Framed(init), n);
        LinesOfLeading(init, n);
        WholeMore(rows, Lines(Leading(Framed(init), n)), n);
      } else {
        LeadingPart(Framed(init), row, n);
        LinesOfPart(init, row, n - |Framed(init)|);
        assert rows[..|init| + 1] == rows;
      }
    } else {
      assert Leading(Framed(rows), n) == Framed(rows) && rows[..|rows|] == rows;
    }
  }

  lemma LeadingPart(text: string, row: string, n: nat)
    requires |text| <= n <= |text| + |row|
    ensures Leading(text + (row + "\n"), n) == text + row[..n - |text|]
  {
  }

  lemma WholeMore(rows: seq<string>, some: seq<string>, n: nat)
    requires rows != [] && Whole(rows[..|rows| - 1], some, n) && n < |Framed(rows[..|rows| - 1])|
    ensures Whole(rows, some, n)
  {
    var init := rows[..|rows| - 1];
    assert init[..|init|] == init && |some| < |init|;
    assert init[..|some|] == rows[..|some|] && init[..|some| + 1] == rows[..|some| + 1];
  }

  /** A row that is not there as a whole adds no line. */
  lemma LinesOfPart(rows: seq<string>, row: string, n: nat)
    requires n <= |row| && IsRow(row) && forall r :: r in rows ==> IsRow(r)
    ensures Lines(Framed(rows) + row[..n]) == rows
  {
    var part := row[..n];
    forall i | 0 <= i < n ensures part[i] != '\n' { assert row[i] in row; }
    LinesOfFramed(rows);
    LinesStream(Framed(rows), part);
    IndexOfUnique(part, 0, n);
    assert Carry(Framed(rows)) + part == part && Lines(part) == [];
  }

  /** Chunks that are full but for the last make up the text from its beginning. */
  lemma {:induction false} LeadingChunks(chunks: seq<string>, size: nat, k: nat)
    requires k <= |chunks|
    requires forall i :: 0 <= i < |chunks| - 1 ==> |chunks[i]| == size
    requires forall i :: 0 <= i < |chunks| ==> |chunks[i]| <= size
    ensures Concat(chunks[..k]) == Leading(Concat(chunks), k * size)
    decreases |chunks| - k
  {
    if k == |chunks| {
      assert chunks[..k] == chunks;
      ConcatAtMost(chunks, size);
    } else {
      ConcatLength(chunks[..k], size);
      LeadingPrefix(chunks, k);
    }
  }

  lemma {:induction false} ConcatAtMost(chunks: seq<string>, size: nat)
    requires forall i :: 0 <= i < |chunks| ==> |chunks[i]| <= size
    ensures |Concat(chunks)| <= |chunks| * size
  {
    if chunks != [] {
      var n := |chunks| - 1;
      ConcatAtMost(chunks[..n], size);
      assert chunks == chunks[..n] + [chunks[n]];
      assert (n + 1) * size == n * size + size;
    }
  }

  lemma {:induction false} LeadingPrefix(chunks: seq<string>, k: nat)
    requires k <= |chunks|
    ensures Concat(chunks[..k]) <= Concat(chunks)
    decreases |chunks| - k
  {
    if k == |chunks| {
      assert chunks[..k] == chunks;
    } else {
      assert chunks[..k + 1] == chunks[..k] + [chunks[k]];
      LeadingPrefix(chunks, k + 1);
    }
  }

  lemma ArrivedPush(schedule: seq<Step>, k: nat)
    requires k < |schedule|
    ensures Arrived(schedule[..k + 1])
         == Arrived(schedule[..k]) + if schedule[k].Arrive? then {schedule[k].index} else {}
  {
  }
}
