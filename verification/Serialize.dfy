/** The NIP-01 serialization of an event, whole and in chunks, over UTF-16 code units. */
module Serialize {
  import opened Positions
  import opened Pieces

  type Unit = x: int | 0 <= x < 0x10000

  type Text = seq<Unit>

  const QUOTE: Unit := 34
  const BACKSLASH: Unit := 92
  const COMMA: Unit := 44
  const OPEN: Unit := 91
  const CLOSE: Unit := 93

  predicate High(u: Unit) { 0xd800 <= u <= 0xdbff }

  predicate Low(u: Unit) { 0xdc00 <= u <= 0xdfff }

  // -------------------------------------------------------------- JSON strings

  function Hex(n: nat): Unit
    requires n < 16
  {
    if n < 10 then 48 + n else 87 + n
  }

  function HexEscape(u: Unit): Text {
    [BACKSLASH, 117, Hex(u / 16 / 16 / 16), Hex(u / 16 / 16 % 16), Hex(u / 16 % 16), Hex(u % 16)]
  }

  /** The letter after the backslash of a two-character escape. */
  function ShortEscape(u: Unit): Option<Unit> {
    if u == 8 then Some(98)
    else if u == 9 then Some(116)
    else if u == 10 then Some(110)
    else if u == 12 then Some(102)
    else if u == 13 then Some(114)
    else if u == QUOTE || u == BACKSLASH then Some(u)
    else None
  }

  /** JSON.stringify of one code unit that is not half of a pair. */
  function Escape(u: Unit): Text {
    if ShortEscape(u).Some? then [BACKSLASH, ShortEscape(u).value]
    else if u < 32 || High(u) || Low(u) then HexEscape(u)
    else [u]
  }

  predicate PairAt(s: Text, i: nat) { i + 1 < |s| && High(s[i]) && Low(s[i + 1]) }

  /** `s` with every pair kept and every other unit written by `escape`. */
  function QuoteWith(s: Text, escape: Unit -> Text): Text {
    if s == [] then []
    else if PairAt(s, 0) then s[..2] + QuoteWith(s[2..], escape)
    else escape(s[0]) + QuoteWith(s[1..], escape)
  }

  /** What JSON.stringify puts between the quotes: pairs stay, lone surrogates are escaped. */
  function Quote(s: Text): Text { QuoteWith(s, Escape) }

  function JsonString(s: Text): Text { [QUOTE] + Quote(s) + [QUOTE] }

  lemma {:induction false} QuoteSplitWith(a: Text, b: Text, escape: Unit -> Text)
    requires a != [] && b != [] ==> !(High(a[|a| - 1]) && Low(b[0]))
    ensures QuoteWith(a + b, escape) == QuoteWith(a, escape) + QuoteWith(b, escape)
  {
    if a == [] {
      assert a + b == b;
    } else if b == [] {
      assert a + b == a;
    } else {
      var k := if PairAt(a, 0) then 2 else 1;
      var first, rest := a[..k], a[k..];
      assert a == first + rest;
      if rest != [] { assert rest[|rest| - 1] == a[|a| - 1] && (rest + b)[0] == rest[0]; }
      QuoteSplitWith(rest, b, escape);
      QuoteHead(first, rest, escape);
      QuoteHead(first, rest + b, escape);
      var head, x, y := if |first| == 2 then first else escape(first[0]), QuoteWith(rest, escape), QuoteWith(b, escape);
      assert QuoteWith(a, escape) == head + x && QuoteWith(rest + b, escape) == x + y;
      Regroup(first, rest, b);
      Regroup(head, x, y);
    }
  }

  /** Quoting takes a pair, or a unit that does not begin one, off the front. */
  lemma QuoteHead(first: Text, rest: Text, escape: Unit -> Text)
    requires |first| == 1 || (|first| == 2 && PairAt(first, 0))
    requires |first| == 1 && rest != [] ==> !(High(first[0]) && Low(rest[0]))
    ensures QuoteWith(first + rest, escape)
         == (if |first| == 2 then first else escape(first[0])) + QuoteWith(rest, escape)
  {
    var s := first + rest;
    assert s[0] == first[0] && s[|first|..] == rest;
    if |first| == 2 { assert s[1] == first[1] && s[..2] == first; }
  }

  /** Quoting falls apart at every place that is not the middle of a pair. */
  lemma QuoteSplit(a: Text, b: Text)
    requires a != [] && b != [] ==> !(High(a[|a| - 1]) && Low(b[0]))
    ensures Quote(a + b) == Quote(a) + Quote(b)
  {
    QuoteSplitWith(a, b, Escape);
  }

  lemma QuotePair(h: Unit, l: Unit, rest: Text, escape: Unit -> Text)
    requires High(h) && Low(l)
    ensures QuoteWith([h, l] + rest, escape) == [h, l] + QuoteWith(rest, escape)
    ensures QuoteWith([l] + rest, escape) == escape(l) + QuoteWith(rest, escape)
    ensures QuoteWith([h], escape) == escape(h)
  {
  }

  lemma CutInPairWith(front: Text, h: Unit, l: Unit, rest: Text, escape: Unit -> Text)
    requires High(h) && Low(l)
    ensures |QuoteWith(front + [h], escape)| + |QuoteWith([l] + rest, escape)| + 2
         == |QuoteWith(front + ([h, l] + rest), escape)| + |escape(h)| + |escape(l)|
  {
    QuotePair(h, l, rest, escape);
    QuoteSplitWith(front, [h, l] + rest, escape);
    QuoteSplitWith(front, [h], escape);
  }

  /** Only there: a cut inside a pair would escape both halves. */
  lemma QuoteCutInPair(a: Text, b: Text)
    requires a != [] && b != [] && High(a[|a| - 1]) && Low(b[0])
    ensures |Quote(a)| + |Quote(b)| == |Quote(a + b)| + 10
  {
    var h, l, front, rest := a[|a| - 1], b[0], a[..|a| - 1], b[1..];
    assert a == front + [h] && b == [l] + rest && a + b == front + ([h, l] + rest);
    CutInPairWith(front, h, l, rest, Escape);
    assert |Escape(h)| == 6 && |Escape(l)| == 6;
  }

  // --------------------------------------------------------- reading them back

  function UnHex(u: Unit): Option<nat> {
    if 48 <= u <= 57 then Some(u - 48) else if 97 <= u <= 102 then Some(u - 87) else None
  }

  function UnShort(u: Unit): Option<Unit> {
    if u == 98 then Some(8)
    else if u == 116 then Some(9)
    else if u == 110 then Some(10)
    else if u == 102 then Some(12)
    else if u == 114 then Some(13)
    else if u == QUOTE || u == BACKSLASH || u == 47 then Some(u)
    else None
  }

  datatype Token = Token(unit: Unit, width: nat)

  /** The first code unit of a JSON string body and how much text writes it. */
  function First(t: Text): Option<Token>
    requires t != []
  {
    if t[0] == QUOTE || t[0] < 32 then None
    else if t[0] != BACKSLASH then Some(Token(t[0], 1))
    else if |t| < 2 then None
    else if t[1] != 117 then
      if UnShort(t[1]).Some? then Some(Token(UnShort(t[1]).value, 2)) else None
    else if |t| < 6 || UnHex(t[2]).None? || UnHex(t[3]).None? || UnHex(t[4]).None? || UnHex(t[5]).None? then None
    else Some(Token(HexValue(UnHex(t[2]).value, UnHex(t[3]).value, UnHex(t[4]).value, UnHex(t[5]).value), 6))
  }

  function HexValue(a: nat, b: nat, c: nat, d: nat): Unit {
    if a < 16 && b < 16 && c < 16 && d < 16 then ((a * 16 + b) * 16 + c) * 16 + d else 0
  }

  function Unquote(t: Text): Option<Text>
    decreases |t|
  {
    if t == [] then Some([])
    else if First(t).None? || First(t).value.width > |t| || First(t).value.width == 0 then None
    else
      var rest := Unquote(t[First(t).value.width..]);
      if rest.None? then None else Some([First(t).value.unit] + rest.value)
  }

  lemma HexDigits(u: Unit)
    ensures UnHex(Hex(u / 16 / 16 / 16)) == Some(u / 16 / 16 / 16)
    ensures UnHex(Hex(u / 16 / 16 % 16)) == Some(u / 16 / 16 % 16)
    ensures UnHex(Hex(u / 16 % 16)) == Some(u / 16 % 16) && UnHex(Hex(u % 16)) == Some(u % 16)
    ensures HexValue(u / 16 / 16 / 16, u / 16 / 16 % 16, u / 16 % 16, u % 16) == u
  {
  }

  lemma FirstOfEscape(u: Unit, rest: Text)
    ensures First(Escape(u) + rest) == Some(Token(u, |Escape(u)|))
  {
    HexDigits(u);
  }

  /** JSON.stringify writes a letter for seven units, four hex digits for the other control
      characters and for halves of pairs, and every other unit as it is. */
  lemma EscapeLength(u: Unit)
    ensures |Escape(u)| ==
      if u in {8, 9, 10, 12, 13, 34, 92} then 2 else if u < 32 || 0xd800 <= u < 0xe000 then 6 else 1
  {
  }

  lemma UnquoteEscape(u: Unit, rest: Text)
    requires Unquote(rest).Some?
    ensures Unquote(Escape(u) + rest) == Some([u] + Unquote(rest).value)
  {
    FirstOfEscape(u, rest);
    assert (Escape(u) + rest)[|Escape(u)|..] == rest;
  }

  lemma UnquotePair(pair: Text, rest: Text)
    requires Unquote(rest).Some? && |pair| == 2 && High(pair[0]) && Low(pair[1])
    ensures Unquote(pair + rest) == Some(pair + Unquote(rest).value)
  {
    assert pair + rest == [pair[0]] + ([pair[1]] + rest);
    assert pair + Unquote(rest).value == [pair[0]] + ([pair[1]] + Unquote(rest).value);
  }

  /** A reader of JSON gets every string back, with lone surrogates. */
  lemma {:induction false} UnquoteQuote(s: Text)
    ensures Unquote(Quote(s)) == Some(s)
  {
    if s == [] {
    } else if PairAt(s, 0) {
      UnquoteQuote(s[2..]);
      UnquotePair(s[..2], Quote(s[2..]));
      assert s == s[..2] + s[2..];
    } else {
      UnquoteQuote(s[1..]);
      UnquoteEscape(s[0], Quote(s[1..]));
      assert s == [s[0]] + s[1..];
    }
  }

  // ----------------------------------------------------------------- in chunks

  /** Where the next slice ends: after at least one unit, never inside a pair. */
  function ChunkEnd(value: Text, start: nat, chunkSize: int): (end: nat)
    requires start < |value|
    ensures start < end <= |value| && end - start <= (if chunkSize > 2 then chunkSize else 2)
    ensures end < |value| ==> !(High(value[end - 1]) && Low(value[end]))
  {
    var size := if chunkSize > 2 then chunkSize else 2;
    var end := if start + size < |value| then start + size else |value|;
    if end < |value| && end > start + 1 && High(value[end - 1]) && Low(value[end]) then end - 1 else end
  }

  lemma NextSlice(pieces: seq<Text>, before: Text, slice: Text)
    requires Flatten(pieces) == [QUOTE] + Quote(before) && slice != []
    requires before != [] ==> !(High(before[|before| - 1]) && Low(slice[0]))
    ensures Flatten(pieces + [Quote(slice)]) == [QUOTE] + Quote(before + slice)
  {
    QuoteSplit(before, slice);
    FlattenLast(pieces, Quote(slice));
    assert ([QUOTE] + Quote(before)) + Quote(slice) == [QUOTE] + (Quote(before) + Quote(slice));
  }

  /** serializeJsonString: quoting slice by slice is quoting the whole. */
  method SerializeJsonString(value: Text, chunkSize: int) returns (pieces: seq<Text>)
    ensures Flatten(pieces) == JsonString(value)
  {
    pieces := [[QUOTE]];
    var start := 0;
    while start < |value|
      invariant 0 <= start <= |value|
      invariant 0 < start < |value| ==> !(High(value[start - 1]) && Low(value[start]))
      invariant Flatten(pieces) == [QUOTE] + Quote(value[..start])
    {
      var end := ChunkEnd(value, start, chunkSize);
      NextSlice(pieces, value[..start], value[start..end]);
      assert value[..end] == value[..start] + value[start..end];
      pieces := pieces + [Quote(value[start..end])];
      start := end;
    }
    assert value[..start] == value;
    FlattenLast(pieces, [QUOTE]);
    pieces := pieces + [[QUOTE]];
  }

  // ---------------------------------------------------------------- the events

  datatype Event = Event(pubkey: Text, createdAt: int, kind: int, tags: seq<seq<Text>>, content: Text)

  datatype Invalid = InvalidKind | InvalidCreatedAt | InvalidPubkey | InvalidTags

  const MAX_SAFE_INTEGER: nat := 9007199254740991

  predicate IsHex(u: Unit) { 48 <= u <= 57 || 97 <= u <= 102 }

  /** serializableEventError, where the fields have the right types. */
  function ErrorOf(event: Event): Option<Invalid> {
    if !(0 <= event.kind <= 0xffff) then Some(InvalidKind)
    else if !(0 <= event.createdAt <= MAX_SAFE_INTEGER) then Some(InvalidCreatedAt)
    else if |event.pubkey| != 64 || exists i :: 0 <= i < |event.pubkey| && !IsHex(event.pubkey[i]) then
      Some(InvalidPubkey)
    else if exists i :: 0 <= i < |event.tags| && event.tags[i] == [] then Some(InvalidTags)
    else None
  }

  /** A number in decimal, as both a template and JSON write it. */
  function Decimal(n: int): Text
    decreases if n < 0 then 1 - n else n
  {
    if n < 0 then [45] + Decimal(-n)
    else if n < 10 then [48 + n]
    else Decimal(n / 10) + [48 + n % 10]
  }

  function Listed(items: seq<Text>): Text {
    if items == [] then []
    else if |items| == 1 then items[0]
    else Listed(items[..|items| - 1]) + [COMMA] + items[|items| - 1]
  }

  function JsonArray(items: seq<Text>): Text { [OPEN] + Listed(items) + [CLOSE] }

  function Strings(tag: seq<Text>): seq<Text> {
    seq(|tag|, i requires 0 <= i < |tag| => JsonString(tag[i]))
  }

  function Tags(tags: seq<seq<Text>>): seq<Text> {
    seq(|tags|, i requires 0 <= i < |tags| => JsonArray(Strings(tags[i])))
  }

  /** serializeEvent: one JSON array. */
  function Serialized(event: Event): Text {
    JsonArray([
      [48], JsonString(event.pubkey), Decimal(event.createdAt), Decimal(event.kind), JsonArray(Tags(event.tags)),
      JsonString(event.content)])
  }

  /** A unit that JSON.stringify writes as it is, wherever it stands. */
  predicate PlainUnit(u: Unit) { u >= 32 && ShortEscape(u).None? && !High(u) && !Low(u) }

  /** A unit that needs no escape where it stands: it is plain or half of a pair. */
  predicate PlainAt(s: Text, i: nat)
    requires i < |s|
  {
    PlainUnit(s[i]) || PairAt(s, i) || (i > 0 && PairAt(s, i - 1))
  }

  predicate Plain(s: Text) { forall i :: 0 <= i < |s| ==> PlainAt(s, i) }

  lemma PlainTail(s: Text, k: nat)
    requires s != [] && k == if PairAt(s, 0) then 2 else 1
    ensures Plain(s) <==> (PairAt(s, 0) || PlainUnit(s[0])) && Plain(s[k..])
  {
    var rest := s[k..];
    assert PlainAt(s, 0) <==> PairAt(s, 0) || PlainUnit(s[0]);
    assert PairAt(s, 0) ==> PlainAt(s, 0) && PlainAt(s, 1);
    forall i | 0 <= i < |rest|
      ensures PlainUnit(s[0]) || PairAt(s, 0) ==> (PlainAt(rest, i) <==> PlainAt(s, k + i))
    {
      assert rest[i] == s[k + i];
      assert PairAt(rest, i) <==> PairAt(s, k + i);
      if i > 0 { assert PairAt(rest, i - 1) <==> PairAt(s, k + (i - 1)); }
    }
    if Plain(s) {
      forall i | 0 <= i < |rest| ensures PlainAt(rest, i) { assert PlainAt(s, k + i); }
    }
    if (PairAt(s, 0) || PlainUnit(s[0])) && Plain(rest) {
      forall i | 0 <= i < |s| ensures PlainAt(s, i) {
        if i >= k { assert PlainAt(rest, i - k); }
      }
    }
  }

  lemma {:induction false} PlainWith(s: Text, escape: Unit -> Text)
    requires forall u: Unit {:trigger escape(u)} :: if PlainUnit(u) then escape(u) == [u] else |escape(u)| > 1
    ensures |QuoteWith(s, escape)| >= |s| && (QuoteWith(s, escape) == s <==> Plain(s))
  {
    if s != [] {
      var k := if PairAt(s, 0) then 2 else 1;
      var rest, quoted := s[k..], QuoteWith(s[k..], escape);
      PlainWith(rest, escape);
      PlainTail(s, k);
      if k == 2 {
        assert QuoteWith(s, escape) == s[..2] + quoted && s == s[..2] + rest;
      } else {
        assert QuoteWith(s, escape) == escape(s[0]) + quoted && s == [s[0]] + rest;
        if !PlainUnit(s[0]) { assert |QuoteWith(s, escape)| > |s|; }
      }
    }
  }

  /** JSON.stringify adds nothing but the quotes exactly to the strings in which every unit
      is plain or half of a pair. */
  lemma PlainExactly(s: Text)
    ensures Quote(s) == s <==> Plain(s)
  {
    PlainWith(s, Escape);
  }

  lemma HexIsPlain(s: Text)
    requires forall i :: 0 <= i < |s| ==> IsHex(s[i])
    ensures Plain(s)
  {
    forall i | 0 <= i < |s| ensures PlainAt(s, i) { assert IsHex(s[i]); }
  }

  function Comma(items: seq<Text>): Text { if items == [] then [] else [COMMA] }

  /** The pieces of one tag. */
  method SerializeTag(tag: seq<Text>, chunkSize: int) returns (pieces: seq<Text>)
    ensures Flatten(pieces) == JsonArray(Strings(tag))
  {
    pieces := [[OPEN]];
    for i := 0 to |tag|
      invariant Flatten(pieces) == [OPEN] + Listed(Strings(tag[..i]))
    {
      var more := SerializeJsonString(tag[i], chunkSize);
      ghost var items := Strings(tag[..i]);
      assert Strings(tag[..i + 1]) == items + [JsonString(tag[i])];
      NextItem(pieces, if i > 0 then [[COMMA]] else [], more, [OPEN], items, JsonString(tag[i]));
      pieces := pieces + (if i > 0 then [[COMMA]] else []) + more;
    }
    assert tag[..|tag|] == tag;
    FlattenLast(pieces, [CLOSE]);
    pieces := pieces + [[CLOSE]];
  }

  lemma NextItem(pieces: seq<Text>, comma: seq<Text>, more: seq<Text>, head: Text, items: seq<Text>, item: Text)
    requires Flatten(pieces) == head + Listed(items) && Flatten(more) == item
    requires comma == if items == [] then [] else [[COMMA]]
    ensures Flatten(pieces + comma + more) == head + Listed(items + [item])
  {
    FlattenConcat(pieces + comma, more);
    FlattenConcat(pieces, comma);
    FlattenComma(items, comma);
    ListedLast(items, item);
    Regroup(head, Listed(items), Comma(items));
    Regroup(head, Listed(items) + Comma(items), item);
  }

  lemma FlattenComma(items: seq<Text>, comma: seq<Text>)
    requires comma == if items == [] then [] else [[COMMA]]
    ensures Flatten(comma) == Comma(items)
  {
    if items != [] { FlattenLast([], [COMMA]); }
  }

  lemma ListedLast(items: seq<Text>, item: Text)
    ensures Listed(items + [item]) == Listed(items) + Comma(items) + item
  {
    assert (items + [item])[..|items|] == items;
  }

  /** What comes before the tags, with the public key as it is written. */
  function Head(pubkey: Text, createdAt: int, kind: int): Text {
    [OPEN, 48, COMMA, QUOTE] + pubkey + [QUOTE, COMMA] + Decimal(createdAt) + [COMMA] + Decimal(kind) + [COMMA, OPEN]
  }

  function Rest(tags: seq<seq<Text>>, content: Text): Text {
    Listed(Tags(tags)) + [CLOSE, COMMA] + JsonString(content) + [CLOSE]
  }

  lemma ListedFrom(items: seq<Text>, k: nat)
    requires k < |items|
    ensures Listed(items[..k + 1]) == (if k > 0 then Listed(items[..k]) + [COMMA] else []) + items[k]
  {
    assert items[..k + 1] == items[..k] + [items[k]];
  }

  lemma ListedSix(items: seq<Text>)
    requires |items| == 6
    ensures Listed(items)
         == items[0] + [COMMA] + items[1] + [COMMA] + items[2] + [COMMA] + items[3] + [COMMA] + items[4] + [COMMA]
            + items[5]
  {
    ListedFrom(items, 0);
    ListedFrom(items, 1);
    ListedFrom(items, 2);
    ListedFrom(items, 3);
    ListedFrom(items, 4);
    ListedFrom(items, 5);
    assert items[..6] == items;
  }

  /** The same text, cut in other places. */
  lemma Recut(pubkey: Text, createdAt: Text, kind: Text, tags: Text, content: Text)
    ensures [OPEN]
            + ([48] + [COMMA] + ([QUOTE] + pubkey + [QUOTE]) + [COMMA] + createdAt + [COMMA] + kind + [COMMA]
               + ([OPEN] + tags + [CLOSE]) + [COMMA] + content)
            + [CLOSE]
         == ([OPEN, 48, COMMA, QUOTE] + pubkey + [QUOTE, COMMA] + createdAt + [COMMA] + kind + [COMMA, OPEN])
            + (tags + [CLOSE, COMMA] + content + [CLOSE])
  {
  }

  lemma SerializedIs(event: Event)
    ensures Serialized(event)
         == Head(Quote(event.pubkey), event.createdAt, event.kind) + Rest(event.tags, event.content)
  {
    ListedSix([
      [48], JsonString(event.pubkey), Decimal(event.createdAt), Decimal(event.kind), JsonArray(Tags(event.tags)),
      JsonString(event.content)]);
    Recut(Quote(event.pubkey), Decimal(event.createdAt), Decimal(event.kind), Listed(Tags(event.tags)),
      JsonString(event.content));
  }

  /** The pieces of all tags, after what comes before them. */
  method SerializeTags(head: Text, tags: seq<seq<Text>>, chunkSize: int) returns (pieces: seq<Text>)
    ensures Flatten(pieces) == head + Listed(Tags(tags))
  {
    pieces := [head];
    assert pieces[1..] == [] && Flatten(pieces) == head + Listed(Tags([]));
    for i := 0 to |tags|
      invariant Flatten(pieces) == head + Listed(Tags(tags[..i]))
    {
      var more := SerializeTag(tags[i], chunkSize);
      ghost var items := Tags(tags[..i]);
      assert Tags(tags[..i + 1]) == items + [JsonArray(Strings(tags[i]))];
      NextItem(pieces, if i > 0 then [[COMMA]] else [], more, head, items, JsonArray(Strings(tags[i])));
      pieces := pieces + (if i > 0 then [[COMMA]] else []) + more;
    }
    assert tags[..|tags|] == tags;
  }

  /** serializeEventChunks. The pieces make up the plain serialization of every valid event,
      and without validation exactly when the public key needs no escaping. */
  method SerializeEventChunks(event: Event, chunkSize: int, validate: bool) returns (r: Result<seq<Text>, Invalid>)
    ensures r.Err? <==> validate && ErrorOf(event).Some?
    ensures r.Err? ==> ErrorOf(event) == Some(r.error)
    ensures r.Ok? ==> Flatten(r.value) == Written(event)
    ensures r.Ok? && ErrorOf(event).None? ==> Flatten(r.value) == Serialized(event)
    ensures r.Ok? ==> (Flatten(r.value) == Serialized(event) <==> Plain(event.pubkey))
  {
    if validate && ErrorOf(event).Some? { return Err(ErrorOf(event).value); }
    var head := Head(event.pubkey, event.createdAt, event.kind);
    var pieces := SerializeTags(head, event.tags, chunkSize);
    var content := SerializeJsonString(event.content, chunkSize);
    ClosingPieces(pieces, content, head, event);
    pieces := pieces + [[CLOSE, COMMA]] + content + [[CLOSE]];
    SerializedIs(event);
    SameHead(event);
    PlainExactly(event.pubkey);
    if ErrorOf(event).None? { HexIsPlain(event.pubkey); }
    r := Ok(pieces);
  }

  lemma ClosingPieces(pieces: seq<Text>, content: seq<Text>, head: Text, event: Event)
    requires Flatten(pieces) == head + Listed(Tags(event.tags)) && Flatten(content) == JsonString(event.content)
    ensures Flatten(pieces + [[CLOSE, COMMA]] + content + [[CLOSE]]) == head + Rest(event.tags, event.content)
  {
    var tags, closed := Listed(Tags(event.tags)), pieces + [[CLOSE, COMMA]];
    FlattenLast(pieces, [CLOSE, COMMA]);
    FlattenConcat(closed, content);
    FlattenLast(closed + content, [CLOSE]);
    var c := JsonString(event.content);
    assert (head + tags) + [CLOSE, COMMA] + c + [CLOSE] == head + (tags + [CLOSE, COMMA] + c + [CLOSE]);
  }

  lemma SameHead(event: Event)
    ensures Head(event.pubkey, event.createdAt, event.kind) + Rest(event.tags, event.content)
         == Head(Quote(event.pubkey), event.createdAt, event.kind) + Rest(event.tags, event.content)
       <==> Quote(event.pubkey) == event.pubkey
  {
    var p, q := event.pubkey, Quote(event.pubkey);
    var a := Head(p, event.createdAt, event.kind) + Rest(event.tags, event.content);
    var b := Head(q, event.createdAt, event.kind) + Rest(event.tags, event.content);
    assert |a| - |p| == |b| - |q|;
    assert a[4..4 + |p|] == p && b[4..4 + |q|] == q;
  }

  /** What the pieces of an event make up, the public key being written as it is. */
  function Written(event: Event): Text {
    Head(event.pubkey, event.createdAt, event.kind) + Rest(event.tags, event.content)
  }

  /** Whatever the rest of the event, a public key that is a double quote is written wrongly. */
  lemma QuoteAsKey(event: Event)
    requires event.pubkey == [QUOTE]
    ensures Written(event) != Serialized(event)
  {
    assert !PlainAt(event.pubkey, 0);
    PlainExactly(event.pubkey);
    SerializedIs(event);
    SameHead(event);
  }
}
