/** How many bytes of rows fit in one published event: NIP-44 v3 padding, base64 and the JSON
    around them, and the binary search that relies on their being monotone. */
module ChunkSize {
  import opened Arithmetic

  const MAX_EVENT_BYTES: nat := 65536
  const MINIMUM_SIZE: nat := 32
  const LARGE_THRESHOLD: nat := 32768

  // ------------------------------------------------------------------- padding

  predicate PowerOfTwo(p: nat) {
    p == 1 || (p > 1 && p % 2 == 0 && PowerOfTwo(p / 2))
  }

  /** The first of p, 2p, 4p, ... that is at least n. */
  function NextPowerFrom(p: nat, n: nat): (r: nat)
    requires PowerOfTwo(p) && (p == 1 || p < 2 * n)
    ensures PowerOfTwo(r) && r >= n && (r == 1 || r < 2 * n)
    decreases n - p
  {
    if p >= n then p else NextPowerFrom(2 * p, n)
  }

  function NextPower(n: nat): nat {
    NextPowerFrom(1, n)
  }

  function PadChunk(power: nat): nat {
    var part := power / if power >= LARGE_THRESHOLD then 8 else 4;
    if part > MINIMUM_SIZE then part else MINIMUM_SIZE
  }

  /** targetSize. */
  function TargetSize(len: int): nat {
    if len <= 0 then MINIMUM_SIZE else PadTo(PadChunk(NextPower(len)), len)
  }

  /** `len` rounded up to a multiple of `chunk`. */
  function PadTo(chunk: nat, len: nat): (r: nat)
    requires chunk > 0
    ensures r >= len
  {
    CeilDivBounds(len, chunk);
    DivModOf(len + chunk - 1, chunk);
    assert CeilDiv(len, chunk) >= 0;
    chunk * CeilDiv(len, chunk)
  }

  lemma PadToMonotone(chunk: nat, a: nat, b: nat)
    requires chunk > 0 && a <= b
    ensures PadTo(chunk, a) <= PadTo(chunk, b)
  {
    CeilDivMonotone(a, b, chunk);
    MulMonotone(CeilDiv(a, chunk), CeilDiv(b, chunk), chunk);
  }

  /** Padding never passes a multiple of the chunk. */
  lemma PadToBound(chunk: nat, len: nat, pieces: nat)
    requires chunk > 0 && len <= chunk * pieces
    ensures PadTo(chunk, len) <= chunk * pieces
  {
    PadToMonotone(chunk, len, chunk * pieces);
    assert (pieces - 1) * chunk == chunk * pieces - chunk;
    CeilDivUnique(chunk * pieces, chunk, pieces);
  }

  /** Two powers of two are equal or at least a factor of two apart. */
  lemma {:induction false} PowersApart(p: nat, q: nat)
    requires PowerOfTwo(p) && PowerOfTwo(q) && p < q
    ensures 2 * p <= q
  {
    if p > 1 {
      PowersApart(p / 2, q / 2);
    }
  }

  /** A power of two is a whole number of its padding chunks, or below the minimum. */
  lemma PowerIsWhole(power: nat) returns (pieces: nat)
    requires PowerOfTwo(power)
    ensures power >= MINIMUM_SIZE ==> power == PadChunk(power) * pieces
    ensures power < MINIMUM_SIZE ==> PadChunk(power) == MINIMUM_SIZE && pieces == 1
  {
    Eighths(power);
    var subdivisions := if power >= LARGE_THRESHOLD then 8 else 4;
    if power < MINIMUM_SIZE {
      pieces := 1;
    } else if power / subdivisions > MINIMUM_SIZE {
      pieces := subdivisions;
      assert power % subdivisions == 0;
    } else {
      pieces := power / 32;
    }
  }

  lemma Eighths(power: nat)
    requires PowerOfTwo(power)
    ensures power >= 8 ==> power % 8 == 0
    ensures power >= 32 ==> power % 32 == 0
  {
    if power >= 8 {
      var half, quarter, eighth := power / 2, power / 4, power / 8;
      assert PowerOfTwo(half) && half / 2 == quarter;
      assert PowerOfTwo(quarter) && quarter / 2 == eighth;
      assert PowerOfTwo(eighth);
      if power >= 32 {
        assert PowerOfTwo(eighth / 2) && PowerOfTwo(eighth / 2 / 2);
      }
    }
  }

  /** At least its argument and the minimum, at most the next power of two or the minimum. */
  lemma TargetSizeBounds(len: int)
    ensures TargetSize(len) >= len && TargetSize(len) >= MINIMUM_SIZE
    ensures len <= 0 ==> TargetSize(len) == MINIMUM_SIZE
    ensures len > 0 ==> TargetSize(len) <= if NextPower(len) > MINIMUM_SIZE then NextPower(len) else MINIMUM_SIZE
  {
    if len > 0 {
      var power := NextPower(len);
      var pieces := PowerIsWhole(power);
      PadToBound(PadChunk(power), len, pieces);
      CeilDivBounds(len, PadChunk(power));
      MulMonotone(1, CeilDiv(len, PadChunk(power)), PadChunk(power));
    }
  }

  /** Monotone, also where the power of two or the number of subdivisions changes. */
  lemma TargetSizeMonotone(a: int, b: int)
    requires a <= b
    ensures TargetSize(a) <= TargetSize(b)
  {
    if a <= 0 {
      TargetSizeBounds(b);
    } else if NextPower(a) == NextPower(b) {
      PadToMonotone(PadChunk(NextPower(a)), a, b);
    } else {
      var p, q := NextPower(a), NextPower(b);
      if q < p { PowersApart(q, p); } else { PowersApart(p, q); }
      TargetSizeBounds(a);
      TargetSizeBounds(b);
    }
  }

  // -------------------------------------------------------------------- lengths

  /** base64EncodedByteLength: four characters for every three bytes begun (section 4 of
      RFC 4648). */
  function Base64Length(n: nat): nat {
    CeilDivBounds(n, 3);
    CeilDiv(n, 3) * 4
  }

  /** payloadByteLength with an empty scope. */
  function PayloadLength(plaintext: nat): nat { Base64Length(73 + TargetSize(plaintext + 4)) }

  function Quoted(n: nat): nat { n + 2 }

  function Joined(lengths: seq<nat>): nat {
    if lengths == [] then 0 else if |lengths| == 1 then lengths[0] else lengths[0] + 1 + Joined(lengths[1..])
  }

  /** A JSON array, or the braces and fields of an object, from the lengths of its parts. */
  function Enclosed(lengths: seq<nat>): nat { 2 + Joined(lengths) }

  function Field(name: nat, value: nat): nat { Quoted(name) + 1 + value }

  const HEX_32: nat := 66
  const HEX_64: nat := 130

  /** Tags f, imkc, c, p and i with the longest values they can have. */
  const ROUTER_TAGS: nat := Enclosed([
    Enclosed([Quoted(1), HEX_32]),
    Enclosed([Quoted(4), HEX_32, Quoted(10 + 1 + 128)]),
    Enclosed([Quoted(1), Quoted(10), Quoted(10)]),
    Enclosed([Quoted(1), HEX_32]),
    Enclosed([Quoted(1), Quoted(16)])])

  /** The JSON of a router event: kind, pubkey, created_at, tags, content, id, sig. */
  function RouterLength(content: nat): nat {
    Enclosed([
      Field(4, 5), Field(6, HEX_32), Field(10, 10), Field(4, ROUTER_TAGS), Field(7, Quoted(content)),
      Field(2, HEX_32), Field(3, HEX_64)])
  }

  const OUTER_TAGS: nat := Enclosed([Enclosed([Quoted(1), HEX_32]), Enclosed([Quoted(10), Quoted(10)])])

  function OuterLength(content: nat): nat {
    Enclosed([
      Field(4, 4), Field(10, 10), Field(4, OUTER_TAGS), Field(7, Quoted(content)), Field(6, HEX_32),
      Field(2, HEX_32), Field(3, HEX_64)])
  }

  /** outerEventByteLengthForChunk. */
  function OuterLengthForChunk(bytes: nat): nat { OuterLength(PayloadLength(RouterLength(Base64Length(bytes)))) }

  predicate Fits(bytes: nat) { OuterLengthForChunk(bytes) <= MAX_EVENT_BYTES }

  lemma JoinedAll(l: seq<nat>)
    requires 2 <= |l| <= 7
    ensures Joined(l) == l[0] + 1 + l[1]
      + (if |l| > 2 then 1 + l[2] else 0) + (if |l| > 3 then 1 + l[3] else 0) + (if |l| > 4 then 1 + l[4] else 0)
      + (if |l| > 5 then 1 + l[5] else 0) + (if |l| > 6 then 1 + l[6] else 0)
  {
  }

  lemma TagShapes()
    ensures ROUTER_TAGS == 422 && OUTER_TAGS == 102
  {
    var f, imkc := [Quoted(1), HEX_32], [Quoted(4), HEX_32, Quoted(10 + 1 + 128)];
    var c, i := [Quoted(1), Quoted(10), Quoted(10)], [Quoted(1), Quoted(16)];
    JoinedAll(f);
    JoinedAll(imkc);
    JoinedAll(c);
    JoinedAll(i);
    JoinedAll([Enclosed(f), Enclosed(imkc), Enclosed(c), Enclosed(f), Enclosed(i)]);
    JoinedAll([Quoted(10), Quoted(10)]);
    JoinedAll([Enclosed(f), Enclosed([Quoted(10), Quoted(10)])]);
  }

  lemma Shapes(content: nat)
    ensures RouterLength(content) == 766 + content && OuterLength(content) == 445 + content
  {
    TagShapes();
    JoinedAll([
      Field(4, 5), Field(6, HEX_32), Field(10, 10), Field(4, ROUTER_TAGS), Field(7, Quoted(content)),
      Field(2, HEX_32), Field(3, HEX_64)]);
    JoinedAll([
      Field(4, 4), Field(10, 10), Field(4, OUTER_TAGS), Field(7, Quoted(content)), Field(6, HEX_32),
      Field(2, HEX_32), Field(3, HEX_64)]);
  }

  lemma PayloadMonotone(a: nat, b: nat)
    requires a <= b
    ensures PayloadLength(a) <= PayloadLength(b)
  {
    TargetSizeMonotone(a + 4, b + 4);
    CeilDivMonotone(73 + TargetSize(a + 4), 73 + TargetSize(b + 4), 3);
  }

  lemma JsonMonotone(a: nat, b: nat)
    requires a <= b
    ensures RouterLength(a) <= RouterLength(b) && OuterLength(a) <= OuterLength(b)
  {
    Shapes(a);
    Shapes(b);
  }

  lemma OuterLengthMonotone(a: nat, b: nat)
    requires a <= b
    ensures OuterLengthForChunk(a) <= OuterLengthForChunk(b)
  {
    var c, d := Base64Length(a), Base64Length(b);
    CeilDivMonotone(a, b, 3);
    JsonMonotone(c, d);
    PayloadMonotone(RouterLength(c), RouterLength(d));
    JsonMonotone(PayloadLength(RouterLength(c)), PayloadLength(RouterLength(d)));
  }

  lemma PowerBetween(n: nat, p: nat)
    requires PowerOfTwo(p) && p < 2 * n && n <= p
    ensures NextPower(n) == p
  {
    var q := NextPower(n);
    if q < p { PowersApart(q, p); } else if p < q { PowersApart(p, q); }
  }

  /** Sixteen doublings of one. */
  lemma Power65536()
    ensures PowerOfTwo(65536)
  {
    assert PowerOfTwo(16) by { assert PowerOfTwo(1) && PowerOfTwo(2) && PowerOfTwo(4) && PowerOfTwo(8); }
    assert PowerOfTwo(256) by { assert PowerOfTwo(32) && PowerOfTwo(64) && PowerOfTwo(128); }
    assert PowerOfTwo(4096) by { assert PowerOfTwo(512) && PowerOfTwo(1024) && PowerOfTwo(2048); }
    assert PowerOfTwo(8192) && PowerOfTwo(16384) && PowerOfTwo(32768);
  }

  /** The threshold itself. */
  lemma Threshold()
    ensures Fits(30141) && !Fits(30142)
  {
    assert Base64Length(30141) == 40188 && Base64Length(30142) == 40192;
    Shapes(40188);
    Shapes(40192);
    Power65536();
    PowerBetween(40958, 65536);
    PowerBetween(40962, 65536);
    assert PadChunk(65536) == 8192;
    assert TargetSize(40958) == 40960 && TargetSize(40962) == 49152;
    assert PayloadLength(40954) == 54712 && PayloadLength(40958) == 65636;
    Shapes(54712);
    Shapes(65636);
  }

  /** maxJsonlChunkByteSize: the search finds the exact threshold: a chunk fits if and
      only if it is not longer. */
  method MaxChunkBytes() returns (bytes: nat)
    ensures bytes == 30141
    ensures forall c :: 1 <= c <= MAX_EVENT_BYTES ==> (Fits(c) <==> c <= bytes)
  {
    var min, max := 1, MAX_EVENT_BYTES;
    Threshold();
    OuterLengthMonotone(1, 30141);
    while min < max
      invariant 1 <= min <= max <= MAX_EVENT_BYTES
      invariant Fits(min) && forall c :: max < c <= MAX_EVENT_BYTES ==> !Fits(c)
      decreases max - min
    {
      var mid := (min + max + 1) / 2;
      if OuterLengthForChunk(mid) <= MAX_EVENT_BYTES {
        min := mid;
      } else {
        forall c | mid <= c <= MAX_EVENT_BYTES ensures !Fits(c) { OuterLengthMonotone(mid, c); }
        max := mid - 1;
      }
    }
    bytes := min;
    forall c | 1 <= c <= bytes ensures Fits(c) { OuterLengthMonotone(c, bytes); }
  }
}
