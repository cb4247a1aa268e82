/** Base36 and Base62: binary-safe text for byte arrays, fixed-width text for 32-byte numbers
    (NIP-5A), and integers with a chosen width. */
module BaseCodecs {
  import opened Positions
  import opened Digits
  import opened Pieces
  import Arithmetic

  datatype Failure = InvalidCharacter | InvalidLength | Overflow | EmptyInteger | LengthNeedsIntegerMode

  /** The shared alphabet: 0-9, a-z and, in Base62 only, A-Z. */
  function CodeOf(d: nat): int
    requires d < 62
  {
    if d < 10 then 48 + d else if d < 36 then 97 + (d - 10) else 65 + (d - 36)
  }

  function DigitIn(code: int, base: nat): Option<nat> {
    var d := if 48 <= code <= 57 then code - 48
      else if 97 <= code <= 122 then code - 97 + 10
      else if 65 <= code <= 90 then code - 65 + 36
      else 62;
    if d < base && d < 62 then Some(d) else None
  }

  predicate Base(base: nat) { base == 36 || base == 62 }

  function Text(digits: seq<nat>): seq<int>
    requires Below(digits, 62)
  {
    seq(|digits|, i requires 0 <= i < |digits| => CodeOf(digits[i]))
  }

  predicate AllIn(text: seq<int>, base: nat) { forall i :: 0 <= i < |text| ==> DigitIn(text[i], base).Some? }

  function DigitsIn(text: seq<int>, base: nat): (digits: seq<nat>)
    requires AllIn(text, base)
    ensures |digits| == |text| && Below(digits, base) && Below(digits, 62)
  {
    seq(|text|, i requires 0 <= i < |text| => DigitIn(text[i], base).value)
  }

  /** Digits and characters are in bijection. */
  lemma TextInverse(digits: seq<nat>, text: seq<int>, base: nat)
    requires base <= 62
    ensures Below(digits, base) ==> AllIn(Text(digits), base) && DigitsIn(Text(digits), base) == digits
    ensures AllIn(text, base) ==> Text(DigitsIn(text, base)) == text
  {
  }

  // --------------------------------------------------------------- byte mode

  function Encoding(bytes: seq<nat>, base: nat): seq<int>
    requires Base(base) && Below(bytes, 256)
  {
    ConvertBack(bytes, 256, base);
    Text(Convert(bytes, 256, base))
  }

  function Decoding(text: seq<int>, base: nat): (bytes: seq<nat>)
    requires Base(base) && AllIn(text, base)
    ensures Below(bytes, 256)
  {
    ConvertBack(DigitsIn(text, base), base, 256);
    Convert(DigitsIn(text, base), base, 256)
  }

  /** Every byte array comes back, leading zero bytes included. */
  lemma BytesRoundTrip(bytes: seq<nat>, base: nat)
    requires Base(base) && Below(bytes, 256)
    ensures AllIn(Encoding(bytes, base), base) && Decoding(Encoding(bytes, base), base) == bytes
  {
    ConvertBack(bytes, 256, base);
    TextInverse(Convert(bytes, 256, base), [], base);
  }

  /** And so does every text over the alphabet: there is no second spelling. */
  lemma TextRoundTrip(text: seq<int>, base: nat)
    requires Base(base) && AllIn(text, base)
    ensures Encoding(Decoding(text, base), base) == text
  {
    ConvertBack(DigitsIn(text, base), base, 256);
    TextInverse([], text, base);
  }

  method BytesToInteger(bytes: seq<nat>) returns (number: nat)
    ensures number == Value(bytes, 256)
  {
    number := 0;
    for i := 0 to |bytes|
      invariant number == Value(bytes[..i], 256)
    {
      assert bytes[..i + 1][..i] == bytes[..i];
      number := number * 256 + bytes[i];
    }
    assert bytes[..|bytes|] == bytes;
  }

  lemma TextConcat(a: seq<nat>, b: seq<nat>)
    requires Below(a, 62) && Below(b, 62)
    ensures Below(a + b, 62) && Text(a + b) == Text(a) + Text(b)
  {
  }

  lemma TextFirst(n: nat, base: nat)
    requires Base(base) && n > 0
    ensures 0 <= n / base < n && 0 <= n % base < base
    ensures Below(Minimal(n, base), 62) && Below(Minimal(n / base, base), 62)
    ensures Text(Minimal(n, base)) == Text(Minimal(n / base, base)) + [CodeOf(n % base)]
  {
    Halving(n, base);
    MinimalFacts(n, base);
    MinimalFacts(n / base, base);
    TextConcat(Minimal(n / base, base), [n % base]);
    assert Text([n % base]) == [CodeOf(n % base)];
  }

  lemma FixedOne(n: nat, base: nat)
    requires base > 1
    ensures Fixed(n, base, 1) == if n == 0 then [0] else Minimal(n, base)
    ensures Below(Fixed(n, base, 1), base)
  {
    MinimalFacts(n, base);
  }

  /** integerToBase36, integerToBase62: zero is one digit. */
  method IntegerToText(number: nat, base: nat) returns (text: seq<int>)
    requires Base(base)
    ensures Below(Fixed(number, base, 1), 62) && text == Text(Fixed(number, base, 1))
  {
    FixedOne(number, base);
    MinimalFacts(number, base);
    text := [];
    var left: nat := number;
    ghost var whole := Text(Minimal(number, base));
    assert whole + [] == whole;
    while left > 0
      invariant Below(Minimal(left, base), 62) && Text(Minimal(left, base)) + text == whole
    {
      TextFirst(left, base);
      Regroup(Text(Minimal(left / base, base)), [CodeOf(left % base)], text);
      text := [CodeOf(left % base)] + text;
      left := left / base;
    }
    assert Text(Minimal(0, base)) + text == text;
    if text == [] { text := [CodeOf(0)]; }
  }

  /** parseBase36Integer, parseBase62Integer. */
  method ParseInteger(text: seq<int>, base: nat) returns (r: Result<nat, Failure>)
    requires Base(base)
    ensures r == if AllIn(text, base) then Ok(Value(DigitsIn(text, base), base)) else Err(InvalidCharacter)
  {
    var number := 0;
    for i := 0 to |text|
      invariant AllIn(text[..i], base) && number == Value(DigitsIn(text[..i], base), base)
    {
      var digit := DigitIn(text[i], base);
      if digit.None? { return Err(InvalidCharacter); }
      assert text[..i + 1] == text[..i] + [text[i]];
      assert DigitsIn(text[..i + 1], base)[..i] == DigitsIn(text[..i], base);
      number := number * base + digit.value;
    }
    assert text[..|text|] == text;
    r := Ok(number);
  }

  /** integerToMinimalBytes: zero is one byte. */
  method MinimalBytes(number: nat) returns (bytes: seq<nat>)
    ensures bytes == Fixed(number, 256, 1)
  {
    MinimalFacts(number, 256);
    if number == 0 { return [0]; }
    bytes := [];
    var left := number;
    assert Minimal(number, 256) + [] == Minimal(number, 256);
    while left > 0
      invariant Minimal(left, 256) + bytes == Minimal(number, 256)
    {
      Halving(left, 256);
      Regroup(Minimal(left / 256, 256), [left % 256], bytes);
      bytes := [left % 256] + bytes;
      left := left / 256;
    }
  }

  method CountLeading(digits: seq<int>, zero: int) returns (n: nat)
    ensures n <= |digits| && (forall i :: 0 <= i < n ==> digits[i] == zero) && (n < |digits| ==> digits[n] != zero)
  {
    n := 0;
    while n < |digits| && digits[n] == zero
      invariant n <= |digits| && forall i :: 0 <= i < n ==> digits[i] == zero
    {
      n := n + 1;
    }
  }

  /** A zeroed array with `suffix` at its end. */
  method Padded(length: nat, suffix: seq<nat>) returns (bytes: seq<nat>)
    requires |suffix| <= length
    ensures bytes == Zeros(length - |suffix|) + suffix
  {
    var result := new nat[length](_ => 0);
    var offset := length - |suffix|;
    for i := 0 to |suffix|
      invariant forall j :: 0 <= j < offset ==> result[j] == 0
      invariant forall j :: 0 <= j < i ==> result[offset + j] == suffix[j]
    {
      result[offset + i] := suffix[i];
    }
    bytes := result[..];
  }

  lemma EncodingIs(bytes: seq<nat>, base: nat, leadingZeros: nat, result: seq<int>)
    requires Base(base) && Below(bytes, 256) && leadingZeros == Leading(bytes)
    requires Below(Minimal(Value(bytes, 256), base), 62) && result == Text(Minimal(Value(bytes, 256), base))
    ensures seq(leadingZeros, i => CodeOf(0)) + result == Encoding(bytes, base)
  {
  }

  lemma LeadingText(text: seq<int>, base: nat, n: nat)
    requires Base(base) && AllIn(text, base) && n <= |text|
    requires (forall i :: 0 <= i < n ==> text[i] == 48) && (n < |text| ==> text[n] != 48)
    ensures Leading(DigitsIn(text, base)) == n
  {
    var digits := DigitsIn(text, base);
    forall i | 0 <= i < n ensures digits[i] == 0 { assert text[i] == 48; }
    LeadingUnique(digits, n);
  }

  /** bytesToBase36, and bytesToBase62 in byte mode. */
  method EncodeBytes(bytes: seq<nat>, base: nat) returns (text: seq<int>)
    requires Base(base) && Below(bytes, 256)
    ensures text == Encoding(bytes, base)
  {
    if bytes == [] { return []; }
    var number := BytesToInteger(bytes);
    var result := [];
    if number > 0 { result := IntegerToText(number, base); }
    MinimalFacts(number, base);
    var leadingZeros := CountLeading(bytes, 0);
    LeadingUnique(bytes, leadingZeros);
    FixedOne(number, base);
    assert result == Text(Minimal(number, base));
    EncodingIs(bytes, base, leadingZeros, result);
    text := seq(leadingZeros, i => CodeOf(0)) + result;
  }

  /** base36ToBytes, and base62ToBytes in byte mode. */
  method DecodeBytes(text: seq<int>, base: nat) returns (r: Result<seq<nat>, Failure>)
    requires Base(base)
    ensures r == if AllIn(text, base) then Ok(Decoding(text, base)) else Err(InvalidCharacter)
  {
    if text == [] { return Ok([]); }
    var leadingZeros := CountLeading(text, CodeOf(0));
    var parsed := ParseInteger(text, base);
    if parsed.Err? { return Err(parsed.error); }
    var number := parsed.value;
    var suffix := [];
    if number > 0 { suffix := MinimalBytes(number); }
    MinimalFacts(number, 256);
    FixedOne(number, 256);
    LeadingText(text, base, leadingZeros);
    var bytes := Padded(leadingZeros + |suffix|, suffix);
    r := Ok(bytes);
  }

  // -------------------------------------------------------------- fixed width

  const NSITE_BYTE_LENGTH: nat := 32
  const NSITE_TEXT_LENGTH: nat := 50

  /** Fifty digits are exactly what 32 bytes need. */
  lemma NsiteWidth()
    ensures Pow(36, 49) < Pow(256, 32) < Pow(36, 50)
  {
    assert Pow(36, 5) == 60466176 && Pow(256, 4) == 4294967296;
    PowAdd(36, 5, 5);
    PowAdd(36, 10, 10);
    PowAdd(36, 20, 20);
    PowAdd(36, 40, 10);
    assert Pow(36, 50) == 653318623500070906096690267158057820537143710472954871543071966369497141477376;
    assert Pow(36, 50) == Pow(36, 49) * 36;
    PowAdd(256, 4, 4);
    PowAdd(256, 8, 8);
    PowAdd(256, 16, 16);
    assert Pow(256, 32) == 115792089237316195423570985008687907853269984665640564039457584007913129639936;
  }

  method PadStart(text: seq<int>, width: nat) returns (padded: seq<int>)
    ensures padded == (if |text| < width then seq(width - |text|, i => CodeOf(0)) else []) + text
  {
    padded := text;
    while |padded| < width
      invariant |text| <= |padded| && (|padded| <= width || padded == text)
      invariant padded == seq(|padded| - |text|, i => CodeOf(0)) + text
    {
      padded := [CodeOf(0)] + padded;
    }
  }

  function NumberText(n: nat, base: nat, width: nat): (text: seq<int>)
    requires Base(base) && width > 0
    ensures AllIn(text, base) && |text| >= width
    ensures Value(DigitsIn(text, base), base) == n
  {
    MinimalFacts(n, base);
    var m := Minimal(n, base);
    ValueOfPadded(if |m| < width then width - |m| else 0, m, base);
    TextInverse(Fixed(n, base, width), [], base);
    Text(Fixed(n, base, width))
  }

  lemma PaddedText(n: nat, base: nat, width: nat, text: seq<int>, padded: seq<int>)
    requires Base(base) && text == NumberText(n, base, 1)
    requires padded == (if |text| < width then seq(width - |text|, i => CodeOf(0)) else []) + text
    ensures padded == NumberText(n, base, if width > 1 then width else 1)
  {
    FixedOne(n, base);
    FixedWiden(n, base, 1, width);
    PadText(Fixed(n, base, 1), width);
  }

  lemma PadText(digits: seq<nat>, width: nat)
    requires Below(digits, 62)
    ensures var zeros := Zeros(if |digits| < width then width - |digits| else 0);
      Below(zeros + digits, 62)
      && Text(zeros + digits) == (if |digits| < width then seq(width - |digits|, i => CodeOf(0)) else []) + Text(digits)
  {
  }

  /** bytesToBase36Nsite. */
  function NsiteText(bytes: seq<nat>): seq<int> { NumberText(Value(bytes, 256), 36, NSITE_TEXT_LENGTH) }

  method BytesToBase36Nsite(bytes: seq<nat>) returns (r: Result<seq<int>, Failure>)
    requires Below(bytes, 256)
    ensures r.Ok? <==> |bytes| == NSITE_BYTE_LENGTH
    ensures r.Ok? ==> r.value == NsiteText(bytes) && |r.value| == NSITE_TEXT_LENGTH
  {
    if |bytes| != NSITE_BYTE_LENGTH { return Err(InvalidLength); }
    var number := BytesToInteger(bytes);
    var text := IntegerToText(number, 36);
    var padded := PadStart(text, NSITE_TEXT_LENGTH);
    PaddedText(number, 36, NSITE_TEXT_LENGTH, text, padded);
    NsiteWidth();
    ValueBound(bytes, 256);
    FixedBack(number, 36, NSITE_TEXT_LENGTH);
    r := Ok(padded);
  }

  /** base36NsiteToBytes: exactly the texts of 32-byte values are accepted. */
  method Base36NsiteToBytes(text: seq<int>) returns (r: Result<seq<nat>, Failure>)
    ensures r.Err? && r.error == InvalidLength <==> |text| != NSITE_TEXT_LENGTH
    ensures r.Err? && r.error == InvalidCharacter <==> |text| == NSITE_TEXT_LENGTH && !AllIn(text, 36)
    ensures r.Err? && r.error == Overflow
       <==> |text| == NSITE_TEXT_LENGTH && AllIn(text, 36) && Value(DigitsIn(text, 36), 36) >= Pow(256, 32)
    ensures r.Ok? ==> |r.value| == NSITE_BYTE_LENGTH && Below(r.value, 256) && NsiteText(r.value) == text
    ensures forall bytes ::
      |bytes| == NSITE_BYTE_LENGTH && Below(bytes, 256) && NsiteText(bytes) == text ==> r == Ok(bytes)
  {
    forall bytes: seq<nat> | |bytes| == NSITE_BYTE_LENGTH && Below(bytes, 256) && NsiteText(bytes) == text
      ensures |text| == NSITE_TEXT_LENGTH && AllIn(text, 36) && Value(DigitsIn(text, 36), 36) < Pow(256, 32)
      ensures Fixed(Value(DigitsIn(text, 36), 36), 256, 32) == bytes
    {
      NsiteBack(bytes);
    }
    if |text| != NSITE_TEXT_LENGTH { return Err(InvalidLength); }
    var parsed := ParseInteger(text, 36);
    if parsed.Err? { return Err(InvalidCharacter); }
    var number := parsed.value;
    if number >= Pow(256, 32) { return Err(Overflow); }
    var suffix := MinimalBytes(number);
    FixedWiden(number, 256, 1, NSITE_BYTE_LENGTH);
    FixedBack(number, 256, NSITE_BYTE_LENGTH);
    FitsExactly(number, 256, NSITE_BYTE_LENGTH);
    FixedOf(DigitsIn(text, 36), 36);
    TextInverse([], text, 36);
    var bytes := Padded(NSITE_BYTE_LENGTH, suffix);
    r := Ok(bytes);
  }

  lemma NsiteBack(bytes: seq<nat>)
    requires |bytes| == NSITE_BYTE_LENGTH && Below(bytes, 256)
    ensures |NsiteText(bytes)| == NSITE_TEXT_LENGTH
    ensures Value(bytes, 256) < Pow(256, 32) && Fixed(Value(bytes, 256), 256, 32) == bytes
  {
    NsiteWidth();
    ValueBound(bytes, 256);
    FixedBack(Value(bytes, 256), 36, NSITE_TEXT_LENGTH);
    FixedOf(bytes, 256);
  }

  // ------------------------------------------------------------- integer mode

  /** A chosen width decodes back to the bytes: any text width, the original byte length. */
  lemma IntegerRoundTrip(bytes: seq<nat>, width: nat)
    requires bytes != [] && Below(bytes, 256) && width > 0
    ensures var text := NumberText(Value(bytes, 256), 62, width);
      Fixed(Value(DigitsIn(text, 62), 62), 256, |bytes|) == bytes
  {
    FixedOf(bytes, 256);
  }

  /** And a text whose number fits comes back from its bytes at its own length. */
  lemma IntegerTextBack(text: seq<int>, byteLength: nat)
    requires text != [] && AllIn(text, 62) && Value(DigitsIn(text, 62), 62) < Pow(256, byteLength)
    ensures NumberText(Value(Fixed(Value(DigitsIn(text, 62), 62), 256, byteLength), 256), 62, |text|) == text
  {
    FixedBack(Value(DigitsIn(text, 62), 62), 256, byteLength);
    FixedOf(DigitsIn(text, 62), 62);
    TextInverse([], text, 62);
  }

  datatype Mode = Bytes | Integer

  /** bytesToBase62. */
  method BytesToBase62(bytes: seq<nat>, mode: Mode, minLength: Option<int>) returns (r: Result<seq<int>, Failure>)
    requires Below(bytes, 256)
    ensures mode == Bytes ==> r == if minLength.Some? then Err(LengthNeedsIntegerMode) else Ok(Encoding(bytes, 62))
    ensures mode == Integer && bytes == [] ==> r == Err(EmptyInteger)
    ensures mode == Integer && bytes != [] && minLength.Some? && minLength.value < 0 ==> r == Err(InvalidLength)
    ensures mode == Integer && bytes != [] && (minLength.Some? ==> minLength.value >= 0) ==>
      r == Ok(NumberText(Value(bytes, 256), 62, if minLength.Some? && minLength.value > 1 then minLength.value else 1))
  {
    if mode == Bytes {
      if minLength.Some? { return Err(LengthNeedsIntegerMode); }
      var text := EncodeBytes(bytes, 62);
      return Ok(text);
    }
    if bytes == [] { return Err(EmptyInteger); }
    if minLength.Some? && minLength.value < 0 { return Err(InvalidLength); }
    var width := if minLength.Some? then minLength.value else 0;
    var number := BytesToInteger(bytes);
    var text := IntegerToText(number, 62);
    var padded := PadStart(text, width);
    PaddedText(number, 62, width, text, padded);
    r := Ok(padded);
  }

  /** base62ToBytes. */
  method Base62ToBytes(text: seq<int>, mode: Mode, byteLength: Option<int>) returns (r: Result<seq<nat>, Failure>)
    ensures mode == Bytes ==>
      r == if byteLength.Some? then Err(LengthNeedsIntegerMode)
           else if AllIn(text, 62) then Ok(Decoding(text, 62)) else Err(InvalidCharacter)
    ensures mode == Integer && text == [] ==> r == Err(EmptyInteger)
    ensures mode == Integer && text != [] && byteLength.Some? && byteLength.value < 1 ==> r == Err(InvalidLength)
    ensures mode == Integer && text != [] && (byteLength.Some? ==> byteLength.value >= 1) ==>
      r == IntegerBytes(text, if byteLength.Some? then byteLength.value else 0)
  {
    if mode == Bytes {
      if byteLength.Some? { return Err(LengthNeedsIntegerMode); }
      r := DecodeBytes(text, 62);
      return;
    }
    if text == [] { return Err(EmptyInteger); }
    if byteLength.Some? && byteLength.value < 1 { return Err(InvalidLength); }
    var parsed := ParseInteger(text, 62);
    if parsed.Err? { return Err(parsed.error); }
    var bytes := MinimalBytes(parsed.value);
    if byteLength.None? { return Ok(bytes); }
    FixedWiden(parsed.value, 256, 1, byteLength.value);
    FitsExactly(parsed.value, 256, byteLength.value);
    if |bytes| > byteLength.value { return Err(Overflow); }
    var padded := Padded(byteLength.value, bytes);
    r := Ok(padded);
  }

  /** The number of `text` in `width` bytes, or in as few as it takes when `width` is 0. */
  function IntegerBytes(text: seq<int>, width: nat): Result<seq<nat>, Failure> {
    if !AllIn(text, 62) then Err(InvalidCharacter)
    else
      var n := Value(DigitsIn(text, 62), 62);
      if width == 0 then Ok(Fixed(n, 256, 1))
      else if n >= Pow(256, width) then Err(Overflow)
      else Ok(Fixed(n, 256, width))
  }
}
