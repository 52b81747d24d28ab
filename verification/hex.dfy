/** Hexadecimal helpers of the decoder: recognising hex text, turning pairs of
    hex digits into bytes, and rendering bytes as lower-case hex. */
module Hex {

  /** An unsigned 8-bit value (`uint8_t`). */
  type Byte = b: int | 0 <= b < 256

  /** `std::isxdigit` in the "C" locale. */
  predicate IsHexDigit(c: char) {
    '0' <= c <= '9' || 'a' <= c <= 'f' || 'A' <= c <= 'F'
  }

  predicate IsLowerHexDigit(c: char) {
    '0' <= c <= '9' || 'a' <= c <= 'f'
  }

  /** `isHexString`: every character is a hex digit (the empty string is hex). */
  predicate IsHexString(s: string) {
    forall i :: 0 <= i < |s| ==> IsHexDigit(s[i])
  }

  predicate IsLowerHexString(s: string) {
    forall i :: 0 <= i < |s| ==> IsLowerHexDigit(s[i])
  }

  /** The value of one hex digit, as `std::stoul(_, nullptr, 16)` reads it. */
  function DigitValue(c: char): (v: nat)
    requires IsHexDigit(c)
    ensures v < 16
  {
    if '0' <= c <= '9' then c as int - '0' as int
    else if 'a' <= c <= 'f' then c as int - 'a' as int + 10
    else c as int - 'A' as int + 10
  }

  /** The digit `std::hex` prints for a value below sixteen. */
  function LowerDigit(v: nat): (c: char)
    requires v < 16
    ensures IsLowerHexDigit(c)
    ensures DigitValue(c) == v
  {
    if v < 10 then ('0' as int + v) as char else ('a' as int + v - 10) as char
  }

  function ToLower(c: char): char {
    if 'A' <= c <= 'F' then (c as int - 'A' as int + 'a' as int) as char else c
  }

  function Lowercase(s: string): string {
    seq(|s|, i requires 0 <= i < |s| => ToLower(s[i]))
  }

  /** Reading a digit and printing its value again gives the digit in lower case. */
  lemma LowerDigitOfValue(c: char)
    requires IsHexDigit(c)
    ensures LowerDigit(DigitValue(c)) == ToLower(c)
  {
  }

  /** `hexStringToBytes`: consecutive pairs of digits, high digit first; a
      trailing odd digit is ignored (the loop runs while `i + 1 < size`). */
  function HexStringToBytes(s: string): (r: seq<Byte>)
    requires IsHexString(s)
    ensures |r| == |s| / 2
    ensures forall i :: 0 <= i < |r| ==> r[i] == 16 * DigitValue(s[2 * i]) + DigitValue(s[2 * i + 1])
  {
    if |s| < 2 then []
    else
      var b: Byte := 16 * DigitValue(s[0]) + DigitValue(s[1]);
      [b] + HexStringToBytes(s[2..])
  }

  /** `bytesToHexString`: each byte as exactly two lower-case digits, zero-padded
      (`std::hex`, `std::setfill('0')`, `std::setw(2)`). */
  function BytesToHexString(data: seq<Byte>): (r: string)
    ensures |r| == 2 * |data|
    ensures IsLowerHexString(r)
    ensures forall i :: 0 <= i < |data| ==>
      DigitValue(r[2 * i]) == data[i] / 16 && DigitValue(r[2 * i + 1]) == data[i] % 16
  {
    if |data| == 0 then ""
    else [LowerDigit(data[0] / 16), LowerDigit(data[0] % 16)] + BytesToHexString(data[1..])
  }

  /** Decoding the rendering of any byte string gives the bytes back. */
  lemma {:induction false} BytesRoundTrip(data: seq<Byte>)
    ensures HexStringToBytes(BytesToHexString(data)) == data
  {
    var s := BytesToHexString(data);
    var r := HexStringToBytes(s);
    forall i | 0 <= i < |data|
      ensures r[i] == data[i]
    {
      assert r[i] == 16 * (data[i] / 16) + data[i] % 16;
    }
  }

  /** The rendering is injective: distinct byte strings give distinct text. */
  lemma BytesToHexStringInjective(a: seq<Byte>, b: seq<Byte>)
    requires BytesToHexString(a) == BytesToHexString(b)
    ensures a == b
  {
    BytesRoundTrip(a);
    BytesRoundTrip(b);
  }

  /** On an even-length hex string, rendering the decoded bytes gives the
      string back, up to the case of its letters. */
  lemma {:induction false} HexRoundTrip(s: string)
    requires IsHexString(s)
    requires |s| % 2 == 0
    ensures BytesToHexString(HexStringToBytes(s)) == Lowercase(s)
  {
    var r := BytesToHexString(HexStringToBytes(s));
    forall j | 0 <= j < |s|
      ensures r[j] == Lowercase(s)[j]
    {
      RenderedDigit(s, j);
    }
  }

  /** One position of the round trip: the digit printed at `j` is the digit
      read at `j`, in lower case. */
  lemma RenderedDigit(s: string, j: nat)
    requires IsHexString(s)
    requires |s| % 2 == 0
    requires j < |s|
    ensures |BytesToHexString(HexStringToBytes(s))| == |s|
    ensures BytesToHexString(HexStringToBytes(s))[j] == ToLower(s[j])
  {
    var bytes := HexStringToBytes(s);
    var r := BytesToHexString(bytes);
    var i := j / 2;
    var hi, lo := DigitValue(s[2 * i]), DigitValue(s[2 * i + 1]);
    assert bytes[i] == 16 * hi + lo;
    assert bytes[i] / 16 == hi && bytes[i] % 16 == lo;
    LowerDigitOfValue(s[j]);
    LowerDigitRendersValue(r[j]);
    if j % 2 == 0 {
      assert j == 2 * i;
      assert DigitValue(r[j]) == hi;
    } else {
      assert j == 2 * i + 1;
      assert DigitValue(r[j]) == lo;
    }
  }

  /** A lower-case digit is the one `LowerDigit` prints for its value. */
  lemma LowerDigitRendersValue(c: char)
    requires IsLowerHexDigit(c)
    ensures LowerDigit(DigitValue(c)) == c
  {
  }

  /** The 16 payload digits of a trace line decode to exactly 8 bytes. */
  lemma PayloadHasEightBytes(s: string)
    requires IsHexString(s)
    requires |s| == 16
    ensures |HexStringToBytes(s)| == 8
  {
  }
}
