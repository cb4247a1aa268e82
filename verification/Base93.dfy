/** Base93 text: groups of 13 or 14 bits, least significant first, written as two digits. A
    group has 14 bits when its low 13 bits are at most 456, so every value is below 93^2. */
module Base93 {
  import opened Positions
  import opened Bits
  import opened Pieces
  import Arithmetic

  const SQUARE: nat := 8649

  type Digit = x: int | 0 <= x < 93

  type Pair = x: int | 0 <= x < 8649

  // -------------------------------------------------------------- the alphabet

  /** The character of a digit: A-Z, a-z, 0-9, then ASCII punctuation without the double
      quote and the backslash, and the space. */
  function CodeOf(d: Digit): int {
    if d < 26 then 65 + d
    else if d < 52 then 97 + (d - 26)
    else if d < 62 then 48 + (d - 52)
    else if d == 62 then 33
    else if d < 76 then 35 + (d - 63)
    else if d < 83 then 58 + (d - 76)
    else if d == 83 then 91
    else if d < 88 then 93 + (d - 84)
    else if d < 92 then 123 + (d - 88)
    else 32
  }

  function DigitOf(code: int): Option<Digit> {
    if 65 <= code <= 90 then Some(code - 65)
    else if 97 <= code <= 122 then Some(code - 97 + 26)
    else if 48 <= code <= 57 then Some(code - 48 + 52)
    else if code == 33 then Some(62)
    else if 35 <= code <= 47 then Some(code - 35 + 63)
    else if 58 <= code <= 64 then Some(code - 58 + 76)
    else if code == 91 then Some(83)
    else if 93 <= code <= 96 then Some(code - 93 + 84)
    else if 123 <= code <= 126 then Some(code - 123 + 88)
    else if code == 32 then Some(92)
    else None
  }

  /** The two tables are inverse to each other, and JSON needs no escape for any character. */
  lemma Tables(d: Digit, code: int)
    ensures 32 <= CodeOf(d) < 127 && CodeOf(d) != 34 && CodeOf(d) != 92
    ensures DigitOf(CodeOf(d)) == Some(d)
    ensures DigitOf(code).Some? ==> CodeOf(DigitOf(code).value) == code
  {
  }

  function Text(digits: seq<Digit>): seq<int> {
    seq(|digits|, i requires 0 <= i < |digits| => CodeOf(digits[i]))
  }

  predicate AllDigits(codes: seq<int>) { forall i :: 0 <= i < |codes| ==> DigitOf(codes[i]).Some? }

  function DigitsOf(codes: seq<int>): seq<Digit>
    requires AllDigits(codes)
  {
    seq(|codes|, i requires 0 <= i < |codes| => DigitOf(codes[i]).value)
  }

  lemma DigitsOfText(digits: seq<Digit>)
    ensures AllDigits(Text(digits)) && DigitsOf(Text(digits)) == digits
  {
  }

  // ---------------------------------------------------------------- the format

  /** How many bits the next group takes, decided by its first 13. */
  function GroupWidth(bits: seq<bool>): nat
    requires |bits| >= 14
  {
    if Val(bits[..13]) > 456 then 13 else 14
  }

  /** A group takes 14 bits whenever its value is then sure to be below 93 squared. */
  lemma WidestGroup(bits: seq<bool>)
    requires |bits| >= 14
    ensures GroupWidth(bits) == if Val(bits[..13]) + 8192 < 93 * 93 then 14 else 13
  {
  }

  predicate IsGroup(bits: seq<bool>) {
    (|bits| == 13 && Val(bits) > 456) || (|bits| == 14 && Val(bits[..13]) <= 456)
  }

  /** The width a reader finds in the value: 13 when its low 13 bits exceed 456. */
  function PairBits(value: nat): seq<bool> { ToBits(value, if Low(value, 13) > 456 then 13 else 14) }

  /** A group's value is below 93^2, and has the group's width still in it. */
  lemma GroupValue(group: seq<bool>)
    requires IsGroup(group)
    ensures Val(group) < SQUARE && PairBits(Val(group)) == group
  {
    ToBitsOfVal(group);
    ToBitsPrefix(Val(group), 13, |group|);
    if |group| == 13 {
      GroupBound(group, false);
      assert group[..13] == group;
    } else {
      GroupBound(group[..13], group[13]);
      assert group == group[..13] + [group[13]];
    }
  }

  lemma GroupBound(low: seq<bool>, high: bool)
    requires |low| == 13
    ensures Val(low) < 8192 && Val(low + [high]) <= Val(low) + 8192
  {
    Powers();
    ValBound(low);
    ValConcat(low, [high]);
    ShiftIsTimes(Val([high]), 13);
    assert Val([high]) <= 1;
  }

  datatype Packed = Packed(groups: seq<seq<bool>>, rest: seq<bool>)

  function Pack(bits: seq<bool>): (p: Packed)
    ensures |p.rest| < 14
    decreases |bits|
  {
    if |bits| < 14 then Packed([], bits)
    else
      var k := GroupWidth(bits);
      Packed([bits[..k]] + Pack(bits[k..]).groups, Pack(bits[k..]).rest)
  }

  predicate Groups(groups: seq<seq<bool>>) { forall i :: 0 <= i < |groups| ==> IsGroup(groups[i]) }

  lemma FirstGroup(bits: seq<bool>)
    requires |bits| >= 14
    ensures IsGroup(bits[..GroupWidth(bits)])
  {
    assert bits[..GroupWidth(bits)][..13] == bits[..13];
  }

  lemma {:induction false} PackGroups(bits: seq<bool>)
    ensures Groups(Pack(bits).groups)
    decreases |bits|
  {
    if |bits| >= 14 {
      FirstGroup(bits);
      PackGroups(bits[GroupWidth(bits)..]);
    }
  }

  /** The numbers that are written for the groups. */
  function Values(groups: seq<seq<bool>>): seq<Pair>
    requires Groups(groups)
  {
    seq(|groups|, i requires 0 <= i < |groups| => ValueOf(groups[i]))
  }

  function ValueOf(group: seq<bool>): Pair
    requires IsGroup(group)
  {
    GroupValue(group);
    Val(group)
  }

  function Unpacked(values: seq<Pair>): seq<seq<bool>> {
    seq(|values|, i requires 0 <= i < |values| => PairBits(values[i]))
  }

  function Unpack(values: seq<Pair>): (bits: seq<bool>) { Flatten(Unpacked(values)) }

  function DigitPairs(values: seq<Pair>): seq<Digit> {
    seq(2 * |values|, j requires 0 <= j < 2 * |values| => if j % 2 == 0 then values[j / 2] % 93 else values[j / 2] / 93)
  }

  function PairValue(low: Digit, high: Digit): Pair { low as int + high as int * 93 }

  function Pairs(digits: seq<Digit>): seq<Pair> {
    seq(|digits| / 2, i requires 0 <= i < |digits| / 2 => PairValue(digits[2 * i], digits[2 * i + 1]))
  }

  function TailDigits(rest: seq<bool>): (digits: seq<Digit>)
    requires |rest| < 14
  {
    TailBound(rest);
    if rest == [] then []
    else [Val(rest) % 93] + if |rest| > 7 || Val(rest) > 92 then [Val(rest) / 93] else []
  }

  lemma TailBound(rest: seq<bool>)
    requires |rest| < 14
    ensures Val(rest) < 8192 && (|rest| < 7 ==> Val(rest) < 64) && (|rest| <= 7 ==> Val(rest) < 128)
  {
    Powers();
    ValBound(rest);
  }

  function EncodingDigits(bytes: seq<Byte>): seq<Digit> {
    var p := Pack(BitsOf(bytes));
    PackGroups(BitsOf(bytes));
    DigitPairs(Values(p.groups)) + TailDigits(p.rest)
  }

  function Encoding(bytes: seq<Byte>): seq<int> { Text(EncodingDigits(bytes)) }

  /** The byte a reader makes of a digit without a partner. */
  function LastOf(queued: seq<bool>, digit: nat): Byte {
    var bits := (queued + ToBits(digit, 8))[..8];
    ByteBound(bits);
    Val(bits)
  }

  function Decoding(digits: seq<Digit>): seq<Byte> {
    var c := Chop(Unpack(Pairs(digits)));
    c.bytes + if |digits| % 2 == 0 then [] else [LastOf(c.rest, digits[|digits| - 1])]
  }

  // ------------------------------------------------------------ the round trip

  lemma UnpackLast(values: seq<Pair>, value: Pair)
    ensures Unpack(values + [value]) == Unpack(values) + PairBits(value)
  {
    FlattenLast(Unpacked(values), PairBits(value));
    assert Unpacked(values + [value]) == Unpacked(values) + [PairBits(value)];
  }

  /** Nothing is lost in the groups. */
  lemma {:induction false} FlattenPack(bits: seq<bool>, p: Packed)
    requires p == Pack(bits)
    ensures Flatten(p.groups) + p.rest == bits
    decreases |bits|
  {
    if |bits| < 14 {
      assert Flatten(p.groups) == [];
    } else {
      var k := GroupWidth(bits);
      var rest := Pack(bits[k..]);
      FlattenPack(bits[k..], rest);
      FlattenFirst(bits, k, rest, p);
    }
  }

  lemma FlattenFirst(bits: seq<bool>, k: nat, rest: Packed, p: Packed)
    requires k <= |bits| && Flatten(rest.groups) + rest.rest == bits[k..]
    requires p == Packed([bits[..k]] + rest.groups, rest.rest)
    ensures Flatten(p.groups) + p.rest == bits
  {
  }

  /** And a reader of their values finds them again. */
  lemma UnpackValues(groups: seq<seq<bool>>)
    requires Groups(groups)
    ensures Unpack(Values(groups)) == Flatten(groups)
  {
    forall i | 0 <= i < |groups| ensures Unpacked(Values(groups))[i] == groups[i] { GroupValue(groups[i]); }
    assert Unpacked(Values(groups)) == groups;
  }

  lemma DigitPairAt(values: seq<Pair>, i: nat)
    requires i < |values|
    ensures DigitPairs(values)[2 * i] == values[i] % 93 && DigitPairs(values)[2 * i + 1] == values[i] / 93
    ensures PairValue(DigitPairs(values)[2 * i], DigitPairs(values)[2 * i + 1]) == values[i]
  {
  }

  lemma PairsOfDigits(values: seq<Pair>, tail: seq<Digit>)
    requires |tail| <= 2
    ensures Pairs(DigitPairs(values) + tail) == values + if |tail| == 2 then [PairValue(tail[0], tail[1])] else []
  {
  }

  /** Reading what was written gives the bytes back, for every byte sequence. */
  lemma RoundTrip(bytes: seq<Byte>)
    ensures Decoding(EncodingDigits(bytes)) == bytes
  {
    var p := Pack(BitsOf(bytes));
    PackGroups(BitsOf(bytes));
    var values := Values(p.groups);
    FlattenPack(BitsOf(bytes), p);
    UnpackValues(p.groups);
    ChopBitsOf(bytes);
    ChopAppend(Unpack(values), p.rest);
    TailMeans(p.rest);
    PairsOfDigits(values, TailDigits(p.rest));
    ReadBack(values, p.rest, TailDigits(p.rest), DigitPairs(values) + TailDigits(p.rest), bytes);
  }

  /** One digit for up to 7 bits when it is enough, otherwise a pair with their value. */
  ghost predicate TailOf(rest: seq<bool>, tail: seq<Digit>) {
    && |tail| <= 2 && (|tail| == 0 <==> rest == [])
    && (|tail| == 1 ==> tail[0] == Val(rest) && 0 < |rest| <= 7)
    && (|tail| == 2 ==> PairValue(tail[0], tail[1]) == Val(rest) && 7 <= |rest| < 14)
  }

  lemma TailMeans(rest: seq<bool>)
    requires |rest| < 14
    ensures TailOf(rest, TailDigits(rest))
  {
    TailBound(rest);
  }

  lemma ReadBack(values: seq<Pair>, rest: seq<bool>, tail: seq<Digit>, digits: seq<Digit>, bytes: seq<Byte>)
    requires TailOf(rest, tail) && |digits| == 2 * |values| + |tail|
    requires forall k :: 0 <= k < |tail| ==> digits[2 * |values| + k] == tail[k]
    requires Pairs(digits) == values + if |tail| == 2 then [PairValue(tail[0], tail[1])] else []
    requires var c := Chop(Unpack(values));
      bytes == c.bytes + Chop(c.rest + rest).bytes && Chop(c.rest + rest).rest == []
    ensures Decoding(digits) == bytes
  {
    var queued := Chop(Unpack(values)).rest;
    if |tail| == 0 {
      assert queued + rest == queued;
      assert Pairs(digits) == values;
    } else if |tail| == 1 {
      assert Pairs(digits) == values;
      LastByte(queued, rest);
      assert digits[|digits| - 1] == tail[0];
    } else {
      UnpackLast(values, Val(rest));
      PairBitsWide(rest);
      LastPair(queued, rest, PairBits(Val(rest)), Unpack(values));
    }
  }

  lemma PairBitsWide(rest: seq<bool>)
    requires |rest| < 14
    ensures |rest| <= |PairBits(Val(rest))| <= 14 && PairBits(Val(rest))[..|rest|] == rest
  {
    ToBitsWide(rest, |PairBits(Val(rest))|);
  }

  lemma LastByte(queued: seq<bool>, rest: seq<bool>)
    requires |queued| < 8 && 0 < |rest| <= 7 && Chop(queued + rest).rest == []
    ensures Chop(queued + rest).bytes == [LastOf(queued, Val(rest))]
  {
    var all := queued + rest;
    assert |all| == 8 * |Chop(all).bytes|;
    ToBitsWide(rest, 8);
    assert (queued + ToBits(Val(rest), 8))[..8] == all;
    ChopFirst(all);
    assert all[..8] == all && all[8..] == [];
  }

  /** A last pair writes whole bytes only up to where the bits end. */
  lemma LastPair(queued: seq<bool>, rest: seq<bool>, wide: seq<bool>, read: seq<bool>)
    requires 7 <= |rest| <= |wide| <= 14 && wide[..|rest|] == rest
    requires queued == Chop(read).rest && Chop(queued + rest).rest == []
    ensures Chop(read + wide).bytes == Chop(read).bytes + Chop(queued + rest).bytes
  {
    ChopAppend(read, wide);
    assert wide == rest + wide[|rest|..];
    Regroup(queued, rest, wide[|rest|..]);
    ChopExtra(queued + rest, wide[|rest|..]);
  }

  /** Fewer than eight bits more make no byte. */
  lemma ChopExtra(bits: seq<bool>, extra: seq<bool>)
    requires Chop(bits).rest == [] && |extra| < 8
    ensures Chop(bits + extra).bytes == Chop(bits).bytes
  {
    ChopAppend(bits, extra);
    assert [] + extra == extra;
  }

  // ---------------------------------------------------------------- the encoder

  /** The groups taken so far do not depend on what follows, so the input may arrive in
      any pieces. */
  lemma {:induction false} PackAppend(bits: seq<bool>, more: seq<bool>)
    ensures Pack(bits + more).groups == Pack(bits).groups + Pack(Pack(bits).rest + more).groups
    ensures Pack(bits + more).rest == Pack(Pack(bits).rest + more).rest
    decreases |bits|
  {
    if |bits| < 14 {
      assert [] + Pack(bits + more).groups == Pack(bits + more).groups;
    } else {
      var k := GroupWidth(bits);
      PackAppend(bits[k..], more);
      PackFirst(bits);
      PackFirstMore(bits, more);
      var p := Pack(bits[k..]);
      Regroup([bits[..k]], p.groups, Pack(p.rest + more).groups);
    }
  }

  lemma PackFirst(bits: seq<bool>)
    requires |bits| >= 14
    ensures var k := GroupWidth(bits);
      Pack(bits) == Packed([bits[..k]] + Pack(bits[k..]).groups, Pack(bits[k..]).rest)
  {
  }

  lemma PackFirstMore(bits: seq<bool>, more: seq<bool>)
    requires |bits| >= 14
    ensures var k := GroupWidth(bits);
      Pack(bits + more) == Packed([bits[..k]] + Pack(bits[k..] + more).groups, Pack(bits[k..] + more).rest)
  {
    PackFirst(bits + more);
    var k := GroupWidth(bits);
    assert (bits + more)[..13] == bits[..13];
    assert (bits + more)[..k] == bits[..k] && (bits + more)[k..] == bits[k..] + more;
  }

  /** One more byte completes at most one group. */
  lemma PackByte(all: seq<bool>, byte: seq<bool>)
    requires |byte| == 8
    ensures var x := Pack(all).rest + byte;
      && (|x| < 14 ==> Pack(all + byte) == Packed(Pack(all).groups, x))
      && (|x| >= 14 ==> var k := GroupWidth(x);
        Pack(all + byte) == Packed(Pack(all).groups + [x[..k]], x[k..]) && IsGroup(x[..k]))
  {
    var x := Pack(all).rest + byte;
    PackAppend(all, byte);
    if |x| >= 14 {
      PackFirst(x);
      var k := GroupWidth(x);
      FirstGroup(x);
      assert Pack(x[k..]) == Packed([], x[k..]);
      assert [x[..k]] + [] == [x[..k]];
    } else {
      assert Pack(all).groups + [] == Pack(all).groups;
    }
  }

  ghost function GroupText(groups: seq<seq<bool>>): seq<int>
    requires Groups(groups)
  {
    Text(DigitPairs(Values(groups)))
  }

  lemma GroupTextConcat(a: seq<seq<bool>>, b: seq<seq<bool>>)
    requires Groups(a) && Groups(b)
    ensures Groups(a + b) && GroupText(a + b) == GroupText(a) + GroupText(b)
  {
  }

  lemma TextConcat(a: seq<Digit>, b: seq<Digit>)
    ensures Text(a + b) == Text(a) + Text(b)
  {
  }

  lemma GroupTextOne(group: seq<bool>)
    requires IsGroup(group)
    ensures Groups([group]) && Val(group) < SQUARE
    ensures GroupText([group]) == [CodeOf(Val(group) % 93), CodeOf(Val(group) / 93)]
  {
    GroupValue(group);
    assert Values([group]) == [Val(group)];
    DigitPairAt([Val(group)], 0);
  }

  /** The next value out of the bit buffer, as the encoder computes it. */
  method TakeGroup(queuedBits: nat, bitCount: nat, ghost bits: seq<bool>) returns (value: Pair, queued: nat, count: nat)
    requires queuedBits == Val(bits) && bitCount == |bits| >= 14
    ensures var k := GroupWidth(bits); value == Val(bits[..k]) && queued == Val(bits[k..]) && count == |bits[k..]|
  {
    Powers();
    ValSplit(bits, 13);
    ValSplit(bits, 14);
    assert bits[..GroupWidth(bits)][..13] == bits[..13];
    GroupValue(bits[..GroupWidth(bits)]);
    var low := queuedBits % 8192;
    if low > 456 {
      return low, queuedBits / 8192, bitCount - 13;
    } else {
      return queuedBits % 16384, queuedBits / 16384, bitCount - 14;
    }
  }

  /** The bit buffer of an encoder that has seen `all`. */
  ghost predicate Buffered(all: seq<bool>, queued: nat, count: nat) {
    queued == Val(Pack(all).rest) && count == |Pack(all).rest|
  }

  /** The characters of the flush: one when it is enough. */
  method TailText(queuedBits: nat, bitCount: nat, ghost rest: seq<bool>) returns (text: seq<int>)
    requires queuedBits == Val(rest) && bitCount == |rest| < 14
    ensures text == Text(TailDigits(rest))
  {
    TailBound(rest);
    if bitCount == 0 { return []; }
    var output := new int[2](_ => 0);
    output[0] := CodeOf(queuedBits % 93);
    var position := 1;
    if bitCount > 7 || queuedBits > 92 {
      output[1] := CodeOf(queuedBits / 93);
      position := 2;
    }
    text := output[..position];
  }

  lemma PushPart(parts: seq<seq<int>>, text: seq<int>)
    ensures Flatten(if text == [] then parts else parts + [text]) == Flatten(parts) + text
  {
    if text == [] {
      assert Flatten(parts) + [] == Flatten(parts);
    } else {
      FlattenLast(parts, text);
    }
  }

  class Encoder {
    var queuedBits: nat
    var bitCount: nat
    var parts: seq<seq<int>>
    var finished: bool
    ghost const prefix: seq<int>
    ghost var consumed: seq<Byte>

    ghost predicate Valid() reads this {
      if finished then Flatten(parts) == prefix + Encoding(consumed)
      else
        && Groups(Pack(BitsOf(consumed)).groups)
        && Flatten(parts) == prefix + GroupText(Pack(BitsOf(consumed)).groups)
        && Buffered(BitsOf(consumed), queuedBits, bitCount)
    }

    constructor (prefix: seq<int>)
      ensures Valid() && !finished && consumed == [] && this.prefix == prefix
    {
      queuedBits, bitCount, finished := 0, 0, false;
      parts := if prefix == [] then [] else [prefix];
      this.prefix, consumed := prefix, [];
      new;
      PushPart([], prefix);
      assert [] + [prefix] == [prefix];
    }

    /** update: refuses a finished encoder, otherwise takes the bytes in. */
    method Update(source: seq<Byte>) returns (ok: bool)
      requires Valid()
      modifies `queuedBits, `bitCount, `parts, `consumed
      ensures Valid() && ok == !finished
      ensures consumed == if ok then old(consumed) + source else old(consumed)
    {
      if finished { return false; }
      var queued, count, text;
      ghost var made;
      queued, count, text, made := Absorb(source, queuedBits, bitCount, consumed);
      queuedBits, bitCount := queued, count;
      PushPart(parts, text);
      parts := if text == [] then parts else parts + [text];
      GroupTextConcat(Pack(BitsOf(consumed)).groups, made);
      Regroup(prefix, GroupText(Pack(BitsOf(consumed)).groups), GroupText(made));
      consumed := consumed + source;
      ok := true;
    }

    /** getEncoded: flushes the last bits once and joins the parts; calling it again gives
        the same text. */
    method GetEncoded() returns (text: seq<int>)
      requires Valid()
      modifies `queuedBits, `bitCount, `parts, `finished
      ensures Valid() && finished && text == prefix + Encoding(consumed)
    {
      if !finished {
        var tail := TailText(queuedBits, bitCount, Pack(BitsOf(consumed)).rest);
        EncodingIs(prefix, consumed);
        PushPart(parts, tail);
        parts := if tail == [] then parts else parts + [tail];
        finished := true;
        queuedBits, bitCount := 0, 0;
      }
      text := Flatten(parts);
    }
  }

  lemma EncodingIs(prefix: seq<int>, bytes: seq<Byte>)
    ensures var p := Pack(BitsOf(bytes));
      Groups(p.groups) && (prefix + GroupText(p.groups)) + Text(TailDigits(p.rest)) == prefix + Encoding(bytes)
  {
    var p := Pack(BitsOf(bytes));
    PackGroups(BitsOf(bytes));
    TextConcat(DigitPairs(Values(p.groups)), TailDigits(p.rest));
  }

  /** What an encoder that started with the groups `start` has made of `all` so far. */
  ghost predicate Absorbed(start: seq<seq<bool>>, made: seq<seq<bool>>, all: seq<bool>, queued: nat, count: nat) {
    Groups(made) && Pack(all).groups == start + made && Buffered(all, queued, count)
  }

  /** One round of the loop of update: at most one group leaves the buffer. */
  method AbsorbByte(b: Byte, queuedBits: nat, bitCount: nat, ghost start: seq<seq<bool>>, ghost was: seq<seq<bool>>,
      ghost all: seq<bool>)
    returns (queued: nat, count: nat, text: seq<int>, ghost made: seq<seq<bool>>)
    requires Absorbed(start, was, all, queuedBits, bitCount)
    ensures Absorbed(start, made, all + ToBits(b, 8), queued, count)
    ensures GroupText(made) == GroupText(was) + text && |text| % 2 == 0
    ensures 13 * |made| + count <= 13 * |was| + bitCount + 8
  {
    ghost var x := Pack(all).rest + ToBits(b, 8);
    PackByte(all, ToBits(b, 8));
    PutByte(Pack(all).rest, b);
    queued, count := queuedBits + Shift(b, bitCount), bitCount + 8;
    text, made := [], was;
    if count > 13 {
      var value;
      value, queued, count := TakeGroup(queued, count, x);
      text := [CodeOf(value % 93), CodeOf(value / 93)];
      made := was + [x[..GroupWidth(x)]];
      GroupTextMore(was, x[..GroupWidth(x)]);
      assert start + made == (start + was) + [x[..GroupWidth(x)]];
    }
  }

  lemma GroupTextMore(groups: seq<seq<bool>>, group: seq<bool>)
    requires Groups(groups) && IsGroup(group)
    ensures Val(group) < SQUARE && Groups(groups + [group])
    ensures GroupText(groups + [group]) == GroupText(groups) + [CodeOf(Val(group) % 93), CodeOf(Val(group) / 93)]
  {
    GroupTextOne(group);
    GroupTextConcat(groups, [group]);
  }

  method Put(output: array<int>, position: nat, text: seq<int>)
    requires position + |text| <= output.Length
    modifies output
    ensures output[..position + |text|] == old(output[..position]) + text
  {
    for k := 0 to |text|
      invariant output[..position] == old(output[..position])
      invariant output[position..position + k] == text[..k]
    {
      output[position + k] := text[k];
    }
  }

  /** The loop of update. The text goes to an array of fixed size, which is always large
      enough. */
  method Absorb(source: seq<Byte>, queuedBits: nat, bitCount: nat, ghost consumed: seq<Byte>)
    returns (queued: nat, count: nat, text: seq<int>, ghost made: seq<seq<bool>>)
    requires Buffered(BitsOf(consumed), queuedBits, bitCount)
    ensures Absorbed(Pack(BitsOf(consumed)).groups, made, BitsOf(consumed + source), queued, count)
    ensures text == GroupText(made)
  {
    var output := new int[Arithmetic.CeilDiv(16 * |source|, 13) + 4](_ => 0);
    Arithmetic.CeilDivBounds(16 * |source|, 13);
    var position := 0;
    queued, count, made := queuedBits, bitCount, [];
    ghost var start := Pack(BitsOf(consumed)).groups;
    assert consumed + [] == consumed && start + [] == start;
    for i := 0 to |source|
      invariant Absorbed(start, made, BitsOf(consumed + source[..i]), queued, count)
      invariant 13 * |made| + count <= 13 + 8 * i
      invariant position == 2 * |made| <= output.Length && output[..position] == GroupText(made)
    {
      var codes;
      queued, count, codes, made := AbsorbByte(source[i], queued, count, start, made, BitsOf(consumed + source[..i]));
      NextByte(consumed, source, i);
      Put(output, position, codes);
      position := position + |codes|;
    }
    assert source[..|source|] == source;
    text := output[..position];
  }

  lemma NextByte(consumed: seq<Byte>, source: seq<Byte>, i: nat)
    requires i < |source|
    ensures BitsOf(consumed + source[..i + 1]) == BitsOf(consumed + source[..i]) + ToBits(source[i], 8)
  {
    var all := consumed + source[..i + 1];
    assert all[..|all| - 1] == consumed + source[..i];
  }

  lemma PutByte(rest: seq<bool>, b: Byte)
    ensures Val(rest + ToBits(b, 8)) == Val(rest) + Shift(b, |rest|)
  {
    Powers();
    ValConcat(rest, ToBits(b, 8));
    ValOfToBits(b, 8);
  }

  method Encode(bytes: seq<Byte>) returns (text: seq<int>)
    ensures text == Encoding(bytes)
  {
    var encoder := new Encoder([]);
    var ok := encoder.Update(bytes);
    assert encoder.consumed == bytes;
    text := encoder.GetEncoded();
    assert [] + Encoding(bytes) == Encoding(bytes);
  }

  // ---------------------------------------------------------------- the decoder

  datatype Failure = InvalidCharacter(offset: nat) | InvalidOffset | InvalidLength | NonCanonical

  /** What a reader has made of `all`: whole bytes and a bit buffer. */
  ghost predicate Read(all: seq<bool>, bytes: seq<Byte>, queued: nat, count: nat) {
    Chop(all).bytes == bytes && queued == Val(Chop(all).rest) && count == |Chop(all).rest|
  }

  /** The inner loop: whole bytes leave the buffer. */
  method Drain(queuedBits: nat, bitCount: nat, ghost bits: seq<bool>)
    returns (bytes: seq<Byte>, queued: nat, count: nat)
    requires queuedBits == Val(bits) && bitCount == |bits|
    ensures Read(bits, bytes, queued, count)
  {
    bytes, queued, count := [], queuedBits, bitCount;
    ghost var left := bits;
    while count > 7
      invariant queued == Val(left) && count == |left|
      invariant bytes + Chop(left).bytes == Chop(bits).bytes && Chop(left).rest == Chop(bits).rest
      decreases count
    {
      EightBits(left, queued);
      ChopFirst(left);
      ghost var next := Chop(left[8..]).bytes;
      assert bytes + ([Val(left[..8])] + next) == (bytes + [Val(left[..8])]) + next;
      bytes := bytes + [queued % 256];
      queued := queued / 256;
      count := count - 8;
      left := left[8..];
    }
    assert bytes + [] == bytes;
  }

  /** The lowest and the other bits of a number of at least 8. */
  lemma EightBits(bits: seq<bool>, n: nat)
    requires n == Val(bits) && |bits| >= 8
    ensures n % 256 == Val(bits[..8]) && n / 256 == Val(bits[8..])
  {
    Powers();
    ValSplit(bits, 8);
  }

  lemma ThirteenBits(n: nat)
    ensures Low(n, 13) == n % 8192
  {
    Powers();
    LowIsMod(n, 13);
  }

  lemma Written(pair: Pair, width: nat)
    requires width == 14 || (width == 13 && pair < 8192)
    ensures Val(ToBits(pair, width)) == pair
  {
    Powers();
    ValOfToBits(pair, width);
  }

  /** A value read as 13 bits has no 14th. */
  lemma PairNumbers(pair: Pair)
    ensures |PairBits(pair)| == (if pair % 8192 > 456 then 13 else 14) && Val(PairBits(pair)) == pair
  {
    ThirteenBits(pair);
    if pair % 8192 > 456 { SmallPair(pair); }
    Written(pair, if pair % 8192 > 456 then 13 else 14);
  }

  lemma SmallPair(pair: Pair)
    requires pair % 8192 > 456
    ensures pair < 8192
  {
  }

  /** One pair: its bits go on top of the buffer, whole bytes come out. */
  method AbsorbPair(pair: Pair, queuedBits: nat, bitCount: nat, ghost was: seq<Byte>, ghost all: seq<bool>)
    returns (bytes: seq<Byte>, queued: nat, count: nat)
    requires Read(all, was, queuedBits, bitCount)
    ensures Read(all + PairBits(pair), was + bytes, queued, count)
  {
    PairNumbers(pair);
    ghost var rest := Chop(all).rest;
    ValConcat(rest, PairBits(pair));
    var width := if pair % 8192 > 456 then 13 else 14;
    bytes, queued, count := Drain(queuedBits + Shift(pair, bitCount), bitCount + width, rest + PairBits(pair));
    ChopAppend(all, PairBits(pair));
  }

  ghost predicate DigitsUpTo(text: seq<int>, i: nat, digits: seq<Digit>) {
    i <= |text| && AllDigits(text[..i]) && digits == DigitsOf(text[..i])
  }

  lemma DigitsMore(text: seq<int>, i: nat, digits: seq<Digit>)
    requires i < |text| && DigitsUpTo(text, i, digits) && DigitOf(text[i]).Some?
    ensures DigitsUpTo(text, i + 1, digits + [DigitOf(text[i]).value])
  {
  }

  /** The array for `total` digits has room for what `used` of them make. */
  lemma Room(done: nat, used: nat, total: nat)
    requires 8 * done <= 14 * (used / 2) && used <= total
    ensures done + used % 2 <= Arithmetic.CeilDiv(7 * total, 8)
  {
  }

  lemma PairsMore(digits: seq<Digit>, next: Digit)
    ensures Pairs(digits + [next])
         == Pairs(digits) + if |digits| % 2 == 1 then [PairValue(digits[|digits| - 1], next)] else []
  {
  }

  lemma {:induction false} UnpackBound(values: seq<Pair>)
    ensures |Unpack(values)| <= 14 * |values|
  {
    if values != [] {
      var front, last := values[..|values| - 1], values[|values| - 1];
      UnpackBound(front);
      UnpackLast(front, last);
      assert values == front + [last];
    }
  }

  /** What the loop of decodeUnchecked knows after the first digits. */
  ghost predicate Decoded(digits: seq<Digit>, first: Option<Digit>, bytes: seq<Byte>, queued: nat, count: nat) {
    && first == (if |digits| % 2 == 1 then Some(digits[|digits| - 1]) else None)
    && Read(Unpack(Pairs(digits)), bytes, queued, count)
  }

  /** The preallocated array is large enough at every write. */
  lemma DecodedFits(digits: seq<Digit>, first: Option<Digit>, bytes: seq<Byte>, queued: nat, count: nat)
    requires Decoded(digits, first, bytes, queued, count)
    ensures 8 * |bytes| <= 14 * (|digits| / 2)
  {
    UnpackBound(Pairs(digits));
  }

  /** One round of the loop of decodeUnchecked. */
  method DecodeDigit(digit: Digit, ghost digits: seq<Digit>, first: Option<Digit>, ghost was: seq<Byte>,
      queuedBits: nat, bitCount: nat)
    returns (next: Option<Digit>, bytes: seq<Byte>, queued: nat, count: nat)
    requires Decoded(digits, first, was, queuedBits, bitCount)
    ensures Decoded(digits + [digit], next, was + bytes, queued, count)
    ensures 8 * (|was| + |bytes|) <= 14 * ((|digits| + 1) / 2)
  {
    PairsMore(digits, digit);
    if first.None? {
      next, bytes, queued, count := Some(digit), [], queuedBits, bitCount;
      assert Pairs(digits) + [] == Pairs(digits) && was + [] == was;
    } else {
      var pair := PairValue(first.value, digit);
      UnpackLast(Pairs(digits), pair);
      next := None;
      bytes, queued, count := AbsorbPair(pair, queuedBits, bitCount, was, Unpack(Pairs(digits)));
    }
    DecodedFits(digits + [digit], next, was + bytes, queued, count);
  }

  /** A digit without a partner at the end makes the last byte. */
  method DecodeRest(ghost digits: seq<Digit>, first: Option<Digit>, ghost was: seq<Byte>, queued: nat,
      count: nat) returns (bytes: seq<Byte>)
    requires Decoded(digits, first, was, queued, count)
    ensures was + bytes == Decoding(digits) && |was| + |bytes| <= Arithmetic.CeilDiv(7 * |digits|, 8)
  {
    DecodedFits(digits, first, was, queued, count);
    Room(|was|, |digits|, |digits|);
    if first.None? {
      bytes := [];
    } else {
      LastNumber(Chop(Unpack(Pairs(digits))).rest, first.value);
      bytes := [(queued + Shift(first.value, count)) % 256];
    }
  }

  method WriteBytes(output: array<Byte>, position: nat, bytes: seq<Byte>)
    requires position + |bytes| <= output.Length
    modifies output
    ensures output[..position + |bytes|] == old(output[..position]) + bytes
  {
    for k := 0 to |bytes|
      invariant output[..position] == old(output[..position])
      invariant output[position..position + k] == bytes[..k]
    {
      output[position + k] := bytes[k];
    }
  }

  /** decodeUnchecked: the first character outside the alphabet is reported; otherwise the
      bytes, whether or not the text is canonical. */
  method DecodeUnchecked(text: seq<int>) returns (r: Result<seq<Byte>, Failure>)
    ensures r.Err? ==>
      && r.error.InvalidCharacter? && r.error.offset < |text|
      && AllDigits(text[..r.error.offset]) && DigitOf(text[r.error.offset]).None?
    ensures r.Ok? ==> AllDigits(text) && r.value == Decoding(DigitsOf(text))
  {
    var output := new Byte[Arithmetic.CeilDiv(7 * |text|, 8)](_ => 0);
    var first: Option<Digit> := None;
    var queued: nat, count: nat, position: nat := 0, 0, 0;
    var bytes: seq<Byte>;
    ghost var digits: seq<Digit>, done: seq<Byte> := [], [];
    for i := 0 to |text|
      invariant DigitsUpTo(text, i, digits) && |digits| == i
      invariant position <= output.Length && output[..position] == done
      invariant Decoded(digits, first, done, queued, count)
    {
      var decoded := DigitOf(text[i]);
      if decoded.None? { return Err(InvalidCharacter(i)); }
      DigitsMore(text, i, digits);
      first, bytes, queued, count := DecodeDigit(decoded.value, digits, first, done, queued, count);
      assert position + |bytes| <= output.Length by { Room(|done| + |bytes|, i + 1, |text|); }
      WriteBytes(output, position, bytes);
      position := position + |bytes|;
      digits, done := digits + [decoded.value], done + bytes;
    }
    assert text[..|text|] == text && digits == DigitsOf(text);
    bytes := DecodeRest(digits, first, done, queued, count);
    WriteBytes(output, position, bytes);
    r := Ok(output[..position + |bytes|]);
  }

  lemma LastNumber(queued: seq<bool>, digit: Digit)
    requires |queued| < 8
    ensures (Val(queued) + Shift(digit, |queued|)) % 256 == LastOf(queued, digit)
  {
    PutByte(queued, digit);
    EightBits(queued + ToBits(digit, 8), Val(queued) + Shift(digit, |queued|));
  }

  /** The part of the text that decode looks at. */
  function Slice(text: seq<int>, offset: nat, length: int): seq<int>
    requires offset <= |text|
  {
    text[offset..if length < 0 || offset + length > |text| then |text| else offset + length]
  }

  /** decode accepts exactly what encode produces, and gives back what was encoded. */
  method Decode(text: seq<int>, offset: int, length: int) returns (r: Result<seq<Byte>, Failure>)
    ensures r == Err(InvalidOffset) <==> !(0 <= offset <= |text|)
    ensures r == Err(InvalidLength) <==> 0 <= offset <= |text| && length < -1
    ensures 0 <= offset <= |text| && length >= -1 ==>
      forall bytes: seq<Byte> :: r == Ok(bytes) <==> Encoding(bytes) == Slice(text, offset, length)
  {
    if !(0 <= offset <= |text|) { return Err(InvalidOffset); }
    if length < -1 { return Err(InvalidLength); }
    var encoded := text[offset..if length < 0 || offset + length > |text| then |text| else offset + length];
    r := DecodeUnchecked(encoded);
    forall bytes: seq<Byte> | Encoding(bytes) == encoded ensures r == Ok(bytes) {
      DigitsOfText(EncodingDigits(bytes));
      RoundTrip(bytes);
    }
    if r.Ok? {
      var again := Encode(r.value);
      if again != encoded { r := Err(NonCanonical); }
    }
  }
}
