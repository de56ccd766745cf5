/** Bytes and their lowercase hexadecimal text, as `fmt.Sprintf("%x", b)`
    prints a byte slice. Go strings are byte strings, so a `char` below 256
    is one byte of a string. */
module Bytes {
  import opened Strings

  newtype byte = b: int | 0 <= b < 256

  /** Go's `string(b)`: one character per byte. */
  function BytesToString(bs: seq<byte>): (s: string)
    ensures |s| == |bs|
    ensures forall i :: 0 <= i < |bs| ==> s[i] as int == bs[i] as int
  {
    if bs == [] then "" else [bs[0] as int as char] + BytesToString(bs[1..])
  }

  const HexDigits: string := "0123456789abcdef"

  predicate IsHexDigit(c: char) {
    ('0' <= c <= '9') || ('a' <= c <= 'f')
  }

  function HexChar(d: nat): (c: char)
    requires d < 16
    ensures IsHexDigit(c)
  {
    HexDigits[d]
  }

  function HexCharValue(c: char): (d: nat)
    requires IsHexDigit(c)
    ensures d < 16
  {
    if '0' <= c <= '9' then c as int - '0' as int else c as int - 'a' as int + 10
  }

  /** `%x` of a byte slice: two lowercase hex digits per byte, high nibble
      first. */
  function Hex(bs: seq<byte>): (s: string)
    ensures |s| == 2 * |bs|
    ensures forall i :: 0 <= i < |s| ==> IsHexDigit(s[i])
  {
    if bs == [] then ""
    else [HexChar(bs[0] as int / 16), HexChar(bs[0] as int % 16)] + Hex(bs[1..])
  }

  /** Reads hexadecimal text of even length back into bytes. */
  function ParseHex(s: string): seq<byte>
    requires |s| % 2 == 0
    requires forall i :: 0 <= i < |s| ==> IsHexDigit(s[i])
  {
    if s == "" then []
    else [(HexCharValue(s[0]) * 16 + HexCharValue(s[1])) as byte] + ParseHex(s[2..])
  }

  lemma HexCharRoundTrip(d: nat)
    requires d < 16
    ensures HexCharValue(HexChar(d)) == d
  {
  }

  /** The hex text determines the bytes: reading it back gives them. */
  lemma {:induction false} ParseHexOfHex(bs: seq<byte>)
    ensures ParseHex(Hex(bs)) == bs
  {
    if bs != [] {
      var b := bs[0] as int;
      HexCharRoundTrip(b / 16);
      HexCharRoundTrip(b % 16);
      ParseHexOfHex(bs[1..]);
      var s := Hex(bs);
      assert s[2..] == Hex(bs[1..]);
    }
  }

  /** Hex text of a concatenation is the concatenation of the hex texts. */
  lemma {:induction false} HexAppend(a: seq<byte>, b: seq<byte>)
    ensures Hex(a + b) == Hex(a) + Hex(b)
  {
    if a != [] {
      HexAppend(a[1..], b);
      assert (a + b)[1..] == a[1..] + b;
    } else {
      assert a + b == b;
    }
  }
}
