/** Bit sequences, least significant bit first, and the numbers they write. */
module Bits {
  import Arithmetic

  function Pow2(n: nat): (r: nat)
    ensures r > 0
  {
    if n == 0 then 1 else 2 * Pow2(n - 1)
  }

  function Val(bits: seq<bool>): (v: nat)
  {
    if bits == [] then 0 else (if bits[0] then 1 else 0) + 2 * Val(bits[1..])
  }

  /** The lowest `width` bits of `v`. */
  function ToBits(v: nat, width: nat): (bits: seq<bool>)
    ensures |bits| == width
  {
    if width == 0 then [] else [v % 2 == 1] + ToBits(v / 2, width - 1)
  }

  /** v & (2^width - 1). */
  function Low(v: nat, width: nat): nat { Val(ToBits(v, width)) }

  /** Masking is the remainder. */
  lemma {:induction false} LowIsMod(v: nat, width: nat)
    ensures Low(v, width) == v % Pow2(width)
  {
    var low, high := LowHigh(v, width);
    ValBound(ToBits(v, width));
    SplitNumber(v, Pow2(width), high, Low(v, width));
  }

  lemma {:induction false} LowHigh(v: nat, width: nat) returns (low: nat, high: nat)
    ensures low == Low(v, width) && v == low + high * Pow2(width)
  {
    if width == 0 {
      low, high := 0, v;
    } else {
      var half;
      half, high := LowHigh(v / 2, width - 1);
      assert ToBits(v, width)[1..] == ToBits(v / 2, width - 1);
      low := v % 2 + 2 * half;
      ShiftIsTimes(high, width);
      ShiftIsTimes(high, width - 1);
    }
  }

  lemma {:induction false} ValBound(bits: seq<bool>)
    ensures Val(bits) < Pow2(|bits|)
  {
    if bits != [] {
      ValBound(bits[1..]);
    }
  }

  lemma {:induction false} ToBitsOfVal(bits: seq<bool>)
    ensures ToBits(Val(bits), |bits|) == bits
  {
    if bits != [] {
      ToBitsOfVal(bits[1..]);
      assert bits == [bits[0]] + bits[1..];
    }
  }

  lemma {:induction false} ValOfToBits(v: nat, width: nat)
    requires v < Pow2(width)
    ensures Val(ToBits(v, width)) == v
  {
    if width > 0 {
      ValOfToBits(v / 2, width - 1);
      assert ToBits(v, width)[1..] == ToBits(v / 2, width - 1);
    }
  }

  /** v << n. */
  function Shift(v: nat, n: nat): nat {
    if n == 0 then v else 2 * Shift(v, n - 1)
  }

  lemma {:induction false} ShiftIsTimes(v: nat, n: nat)
    ensures Shift(v, n) == v * Pow2(n)
  {
    if n > 0 {
      ShiftIsTimes(v, n - 1);
      assert v * Pow2(n) == 2 * (v * Pow2(n - 1));
    }
  }

  lemma {:induction false} ValConcat(a: seq<bool>, b: seq<bool>)
    ensures Val(a + b) == Val(a) + Shift(Val(b), |a|)
  {
    if a == [] {
      assert a + b == b;
    } else {
      ValConcat(a[1..], b);
      assert (a + b)[1..] == a[1..] + b;
    }
  }

  /** Cutting a number at bit `k` is dividing by 2^k. */
  lemma ValSplit(bits: seq<bool>, k: nat)
    requires k <= |bits|
    ensures Val(bits) % Pow2(k) == Val(bits[..k]) && Val(bits) / Pow2(k) == Val(bits[k..])
  {
    assert bits == bits[..k] + bits[k..];
    ValConcat(bits[..k], bits[k..]);
    ShiftIsTimes(Val(bits[k..]), k);
    ValBound(bits[..k]);
    SplitNumber(Val(bits), Pow2(k), Val(bits[k..]), Val(bits[..k]));
  }

  lemma SplitNumber(n: nat, size: nat, high: nat, low: nat)
    requires n == low + high * size && low < size
    ensures n % size == low && n / size == high
  {
    Arithmetic.DivModUnique(n, size, high, low);
  }

  /** A number that fits in `k` bits is written by them, with zeros above. */
  lemma ToBitsWide(bits: seq<bool>, width: nat)
    requires |bits| <= width
    ensures ToBits(Val(bits), width)[..|bits|] == bits
  {
  }

  lemma {:induction false} ToBitsPrefix(v: nat, k: nat, width: nat)
    requires k <= width
    ensures ToBits(v, width)[..k] == ToBits(v, k)
  {
    if k > 0 {
      ToBitsPrefix(v / 2, k - 1, width - 1);
      assert ToBits(v, width)[..k] == [v % 2 == 1] + ToBits(v / 2, width - 1)[..k - 1];
    }
  }

  lemma Powers()
    ensures Pow2(7) == 128 && Pow2(8) == 256 && Pow2(13) == 8192 && Pow2(14) == 16384
  {
  }

  type Byte = x: int | 0 <= x < 256

  function BitsOf(bytes: seq<Byte>): seq<bool> {
    if bytes == [] then [] else BitsOf(bytes[..|bytes| - 1]) + ToBits(bytes[|bytes| - 1], 8)
  }

  datatype Chopped = Chopped(bytes: seq<Byte>, rest: seq<bool>)

  /** Whole bytes off the front, and what is left. */
  function Chop(bits: seq<bool>): (c: Chopped)
    ensures |c.rest| < 8 && |bits| == 8 * |c.bytes| + |c.rest|
  {
    if |bits| < 8 then Chopped([], bits)
    else
      ByteBound(bits[..8]);
      var c := Chop(bits[8..]);
      Chopped([Val(bits[..8])] + c.bytes, c.rest)
  }

  lemma ChopFirst(bits: seq<bool>)
    requires |bits| >= 8
    ensures 0 <= Val(bits[..8]) < 256
    ensures Chop(bits) == Chopped([Val(bits[..8])] + Chop(bits[8..]).bytes, Chop(bits[8..]).rest)
  {
    ByteBound(bits[..8]);
  }

  lemma ByteBound(bits: seq<bool>)
    requires |bits| == 8
    ensures Val(bits) < 256
  {
    ValBound(bits);
    Powers();
  }

  lemma {:induction false} ChopAppend(bits: seq<bool>, more: seq<bool>)
    ensures Chop(bits + more)
         == Chopped(Chop(bits).bytes + Chop(Chop(bits).rest + more).bytes, Chop(Chop(bits).rest + more).rest)
  {
    var rest := Chop(bits).rest;
    if |bits| < 8 {
      assert rest == bits;
    } else {
      var first, tail := bits[..8], bits[8..];
      ChopAppend(tail, more);
      ChopFirst(bits);
      assert (bits + more)[..8] == first && (bits + more)[8..] == tail + more;
      ChopFirst(bits + more);
      FirstByte(Val(first), Chop(tail).bytes, Chop(rest + more).bytes);
    }
  }

  lemma FirstByte(first: Byte, a: seq<Byte>, b: seq<Byte>)
    ensures ([first] + a) + b == [first] + (a + b)
  {
  }

  lemma {:induction false} ChopBitsOf(bytes: seq<Byte>)
    ensures Chop(BitsOf(bytes)) == Chopped(bytes, [])
  {
    if bytes != [] {
      var n := |bytes| - 1;
      var byte := ToBits(bytes[n], 8);
      ChopBitsOf(bytes[..n]);
      ChopAppend(BitsOf(bytes[..n]), byte);
      ChopByte(bytes[n]);
      assert [] + byte == byte;
      assert bytes == bytes[..n] + [bytes[n]];
    }
  }

  /** The bits of one byte are read as that byte. */
  lemma ChopByte(b: Byte)
    ensures Chop(ToBits(b, 8)) == Chopped([b], [])
  {
    var byte := ToBits(b, 8);
    Powers();
    ValOfToBits(b, 8);
    ChopFirst(byte);
    assert byte[..8] == byte && byte[8..] == [];
  }

}
