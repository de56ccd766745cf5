/** env/Base64PropertySource.go: a derived property source that decodes
    values written as `Base64:<text>`, and the standard padded Base64
    encoding of section 4 of RFC 4648 it relies on (Go's
    `base64.StdEncoding`). */
module Base64 {
  import opened Wrappers
  import opened Strings
  import opened Bytes

  /** The prefix that marks a value for decoding. */
  const Prefix: string := "Base64:"

  predicate IsBase64Char(c: char) {
    ('A' <= c <= 'Z') || ('a' <= c <= 'z') || ('0' <= c <= '9') || c == '+' || c == '/'
  }

  /** The 6-bit value of an alphabet character. */
  function CharValue(c: char): (d: nat)
    requires IsBase64Char(c)
    ensures d < 64
  {
    if 'A' <= c <= 'Z' then c as int - 'A' as int
    else if 'a' <= c <= 'z' then c as int - 'a' as int + 26
    else if '0' <= c <= '9' then c as int - '0' as int + 52
    else if c == '+' then 62
    else 63
  }

  /** The alphabet character of a 6-bit value: `A`-`Z`, `a`-`z`, `0`-`9`,
      `+`, `/`. */
  function EncodeChar(d: nat): (c: char)
    requires d < 64
    ensures IsBase64Char(c) && CharValue(c) == d
  {
    if d < 26 then ('A' as int + d) as char
    else if d < 52 then ('a' as int + d - 26) as char
    else if d < 62 then ('0' as int + d - 52) as char
    else if d == 62 then '+'
    else '/'
  }

  /** Line breaks are ignored by the decoder. */
  function StripNewlines(s: string): (r: string)
    ensures forall i :: 0 <= i < |r| ==> r[i] != '\n' && r[i] != '\r'
    ensures |r| <= |s|
  {
    if s == "" then ""
    else if s[0] == '\n' || s[0] == '\r' then StripNewlines(s[1..])
    else [s[0]] + StripNewlines(s[1..])
  }

  /** Three bytes from four characters. */
  function DecodeFull(q: string): seq<byte>
    requires |q| == 4 && forall i :: 0 <= i < 4 ==> IsBase64Char(q[i])
  {
    var i0, i1, i2, i3 := CharValue(q[0]), CharValue(q[1]), CharValue(q[2]), CharValue(q[3]);
    [(i0 * 4 + i1 / 16) as byte, ((i1 % 16) * 16 + i2 / 4) as byte, ((i2 % 4) * 64 + i3) as byte]
  }

  predicate AllBase64(q: string) {
    forall i :: 0 <= i < |q| ==> IsBase64Char(q[i])
  }

  /** The last group of four: full, or padded with one or two `=`. */
  function DecodeFinal(q: string): Option<seq<byte>>
    requires |q| == 4
  {
    if AllBase64(q) then Some(DecodeFull(q))
    else if AllBase64(q[..2]) && q[2] == '=' && q[3] == '=' then
      Some([(CharValue(q[0]) * 4 + CharValue(q[1]) / 16) as byte])
    else if AllBase64(q[..3]) && q[3] == '=' then
      var i0, i1, i2 := CharValue(q[0]), CharValue(q[1]), CharValue(q[2]);
      Some([(i0 * 4 + i1 / 16) as byte, ((i1 % 16) * 16 + i2 / 4) as byte])
    else None
  }

  /** Groups of four; padding is allowed in the last group only. */
  function DecodeGroups(t: string): Option<seq<byte>>
    requires |t| % 4 == 0
    decreases |t|
  {
    if t == "" then Some([])
    else if |t| == 4 then DecodeFinal(t)
    else if !AllBase64(t[..4]) then None
    else
      match DecodeGroups(t[4..])
      case None => None
      case Some(rest) => Some(DecodeFull(t[..4]) + rest)
  }

  /** `base64.StdEncoding.DecodeString`: `None` for malformed input. */
  function Decode(s: string): Option<seq<byte>> {
    var t := StripNewlines(s);
    if |t| % 4 != 0 then None else DecodeGroups(t)
  }

  /** Four alphabet characters for four 6-bit values. */
  function Quad(x0: nat, x1: nat, x2: nat, x3: nat): (q: string)
    requires x0 < 64 && x1 < 64 && x2 < 64 && x3 < 64
    ensures |q| == 4 && AllBase64(q)
    ensures CharValue(q[0]) == x0 && CharValue(q[1]) == x1 && CharValue(q[2]) == x2 && CharValue(q[3]) == x3
  {
    [EncodeChar(x0), EncodeChar(x1), EncodeChar(x2), EncodeChar(x3)]
  }

  /** Alphabet characters and padding only. */
  predicate Padded(s: string) {
    forall i :: 0 <= i < |s| ==> IsBase64Char(s[i]) || s[i] == '='
  }

  /** Three bytes as four characters. */
  function Group(a: byte, b: byte, c: byte): (q: string)
    ensures |q| == 4 && AllBase64(q)
  {
    var x, y, z := a as int, b as int, c as int;
    Quad(x / 4, (x % 4) * 16 + y / 16, (y % 16) * 4 + z / 64, z % 64)
  }

  /** A last byte alone: two characters and `==`. */
  function GroupOfOne(a: byte): (q: string)
    ensures |q| == 4 && Padded(q)
  {
    var x := a as int;
    Quad(x / 4, (x % 4) * 16, 0, 0)[..2] + "=="
  }

  /** Two last bytes: three characters and `=`. */
  function GroupOfTwo(a: byte, b: byte): (q: string)
    ensures |q| == 4 && Padded(q)
  {
    var x, y := a as int, b as int;
    Quad(x / 4, (x % 4) * 16 + y / 16, (y % 16) * 4, 0)[..3] + "="
  }

  /** `base64.StdEncoding.EncodeToString`, the partner of `Decode`. */
  function Encode(bs: seq<byte>): (s: string)
    ensures |s| % 4 == 0 && Padded(s)
  {
    if |bs| == 0 then ""
    else if |bs| == 1 then GroupOfOne(bs[0])
    else if |bs| == 2 then GroupOfTwo(bs[0], bs[1])
    else Group(bs[0], bs[1], bs[2]) + Encode(bs[3..])
  }

  lemma StripNewlinesOfEncoded(s: string)
    requires Padded(s)
    ensures StripNewlines(s) == s
  {
  }

  /** Decoding what was encoded gives the bytes back. */
  lemma {:induction false} DecodeGroupsOfEncode(bs: seq<byte>)
    ensures DecodeGroups(Encode(bs)) == Some(bs)
    decreases |bs|
  {
    if |bs| == 1 {
      DecodeGroupOfOne(bs[0]);
      assert bs == [bs[0]];
    } else if |bs| == 2 {
      DecodeGroupOfTwo(bs[0], bs[1]);
      assert bs == [bs[0], bs[1]];
    } else if |bs| >= 3 {
      var s := Encode(bs);
      var q := Group(bs[0], bs[1], bs[2]);
      DecodeGroup(bs[0], bs[1], bs[2]);
      DecodeGroupsOfEncode(bs[3..]);
      assert s == q + Encode(bs[3..]);
      assert s[..4] == q && s[4..] == Encode(bs[3..]);
      assert bs == [bs[0], bs[1], bs[2]] + bs[3..];
      if |bs| == 3 {
        assert Encode(bs[3..]) == "" && s == q;
        assert DecodeGroups(s) == DecodeFinal(q) == Some(DecodeFull(q));
        assert bs == [bs[0], bs[1], bs[2]];
      } else {
        assert |s| > 4;
      }
    }
  }

  lemma DecodeGroupOfOne(a: byte)
    ensures DecodeFinal(GroupOfOne(a)) == Some([a])
  {
    var s := GroupOfOne(a);
    var x := a as int;
    var x0, x1 := x / 4, (x % 4) * 16;
    var q := Quad(x0, x1, 0, 0);
    assert s == q[..2] + "==";
    assert CharValue(s[0]) == x0 && CharValue(s[1]) == x1;
    SextetsOfOne(x);
    assert !AllBase64(s) by { assert !IsBase64Char(s[3]); }
    assert AllBase64(s[..2]) && s[2] == '=' && s[3] == '=';
    assert CharValue(s[0]) * 4 + CharValue(s[1]) / 16 == x;
  }

  lemma DecodeGroupOfTwo(a: byte, b: byte)
    ensures DecodeFinal(GroupOfTwo(a, b)) == Some([a, b])
  {
    var s := GroupOfTwo(a, b);
    var x, y := a as int, b as int;
    var x0, x1, x2 := x / 4, (x % 4) * 16 + y / 16, (y % 16) * 4;
    var q := Quad(x0, x1, x2, 0);
    assert s == q[..3] + "=";
    assert CharValue(s[0]) == x0 && CharValue(s[1]) == x1 && CharValue(s[2]) == x2;
    SextetsOfTwo(x, y);
    assert !AllBase64(s) by { assert !IsBase64Char(s[3]); }
    assert s[2] != '=';
    assert AllBase64(s[..3]) && s[3] == '=';
    assert CharValue(s[0]) * 4 + CharValue(s[1]) / 16 == x;
    assert (CharValue(s[1]) % 16) * 16 + CharValue(s[2]) / 4 == y;
  }

  /** One full group: the four sextets of three bytes decode to them. */
  lemma DecodeGroup(a: byte, b: byte, c: byte)
    ensures DecodeFull(Group(a, b, c)) == [a, b, c]
  {
    var x, y, z := a as int, b as int, c as int;
    var x0, x1, x2, x3 := x / 4, (x % 4) * 16 + y / 16, (y % 16) * 4 + z / 64, z % 64;
    SextetsOfThree(x, y, z);
    DecodeFullOfQuad(x0, x1, x2, x3);
  }

  lemma DecodeFullOfQuad(x0: nat, x1: nat, x2: nat, x3: nat)
    requires x0 < 64 && x1 < 64 && x2 < 64 && x3 < 64
    ensures DecodeFull(Quad(x0, x1, x2, x3))
            == [(x0 * 4 + x1 / 16) as byte, ((x1 % 16) * 16 + x2 / 4) as byte, ((x2 % 4) * 64 + x3) as byte]
  {
  }

  /** The 6-bit arithmetic: splitting bytes into sextets and joining them
      again gives the bytes back. */
  lemma SextetsOfOne(a: int)
    requires 0 <= a < 256
    ensures (a / 4) * 4 + ((a % 4) * 16) / 16 == a
  {
  }

  lemma SextetsOfTwo(a: int, b: int)
    requires 0 <= a < 256 && 0 <= b < 256
    ensures (a / 4) * 4 + ((a % 4) * 16 + b / 16) / 16 == a
    ensures (((a % 4) * 16 + b / 16) % 16) * 16 + ((b % 16) * 4) / 4 == b
  {
  }

  lemma SextetsOfThree(a: int, b: int, c: int)
    requires 0 <= a < 256 && 0 <= b < 256 && 0 <= c < 256
    ensures (a / 4) * 4 + ((a % 4) * 16 + b / 16) / 16 == a
    ensures (((a % 4) * 16 + b / 16) % 16) * 16 + ((b % 16) * 4 + c / 64) / 4 == b
    ensures (((b % 16) * 4 + c / 64) % 4) * 64 + c % 64 == c
  {
  }

  /** The round trip of section 4 of RFC 4648: `Decode(Encode(b)) == b`. */
  lemma DecodeEncode(bs: seq<byte>)
    ensures Decode(Encode(bs)) == Some(bs)
  {
    StripNewlinesOfEncoded(Encode(bs));
    DecodeGroupsOfEncode(bs);
  }

  /** Line breaks anywhere in the input do not change the result. */
  lemma DecodeIgnoresLineBreaks(a: string, b: string)
    ensures Decode(a + "\n" + b) == Decode(a + b)
    ensures Decode(a + "\r" + b) == Decode(a + b)
  {
    assert a + "\n" + b == a + ("\n" + b);
    assert a + "\r" + b == a + ("\r" + b);
    assert ("\n" + b)[1..] == b && ("\r" + b)[1..] == b;
    StripAppend(a, "\n" + b);
    StripAppend(a, "\r" + b);
    StripAppend(a, b);
  }

  lemma {:induction false} StripAppend(a: string, b: string)
    ensures StripNewlines(a + b) == StripNewlines(a) + StripNewlines(b)
  {
    if a != "" {
      StripAppend(a[1..], b);
      assert (a + b)[1..] == a[1..] + b;
    } else {
      assert a + b == b;
    }
  }

  /** Go's `strings.TrimRight(s, "\n\r")`. */
  function TrimLineEnds(s: string): (r: string)
    ensures |r| <= |s| && r == s[..|r|]
    ensures |r| > 0 ==> r[|r| - 1] != '\n' && r[|r| - 1] != '\r'
    ensures forall i :: |r| <= i < |s| ==> s[i] == '\n' || s[i] == '\r'
  {
    if s != "" && (s[|s| - 1] == '\n' || s[|s| - 1] == '\r') then TrimLineEnds(s[..|s| - 1]) else s
  }

  /** The value of the first enumerable source, in first-wins order, that
      holds `key`. Each entry is a source's `Properties()`, `None` for a
      derived source whose map is nil. */
  function FirstHolder(enumerated: seq<Option<map<string, string>>>, key: string): (r: Option<string>)
    ensures r.None? <==> forall i :: 0 <= i < |enumerated| ==> !Holds(enumerated[i], key)
    ensures r.Some? ==> (exists i :: 0 <= i < |enumerated| && Holds(enumerated[i], key)
                           && enumerated[i].value[key] == r.value
                           && forall j :: 0 <= j < i ==> !Holds(enumerated[j], key))
  {
    if enumerated == [] then None
    else if Holds(enumerated[0], key) then Some(enumerated[0].value[key])
    else
      var r := FirstHolder(enumerated[1..], key);
      assert forall i :: 1 <= i < |enumerated| ==> enumerated[i] == enumerated[1..][i - 1];
      if r.Some? then
        assert exists i :: 0 <= i < |enumerated| && Holds(enumerated[i], key)
                 && enumerated[i].value[key] == r.value
                 && forall j :: 0 <= j < i ==> !Holds(enumerated[j], key) by {
          var k :| 0 <= k < |enumerated[1..]| && Holds(enumerated[1..][k], key)
                   && enumerated[1..][k].value[key] == r.value
                   && forall j :: 0 <= j < k ==> !Holds(enumerated[1..][j], key);
          assert Holds(enumerated[k + 1], key);
        }
        r
      else r
  }

  /** An enumerable source that has the key. */
  predicate Holds(properties: Option<map<string, string>>, key: string) {
    properties.Some? && key in properties.value
  }

  /** `HasProperty(key)`: the first enumerable holder of `key` decides, and
      the answer is whether its value carries the `Base64:` prefix. */
  function HasProperty(enumerated: seq<Option<map<string, string>>>, key: string): (b: bool)
    ensures FirstHolder(enumerated, key).None? ==> !b
    ensures FirstHolder(enumerated, key).Some? ==> (b <==> HasPrefix(FirstHolder(enumerated, key).value, Prefix))
  {
    match FirstHolder(enumerated, key)
    case None => false
    case Some(value) => HasPrefix(value, Prefix)
  }

  /** `Property(key)`: the first enumerable holder's value with its first
      seven characters dropped, decoded, and with trailing line breaks
      removed. */
  function Property(enumerated: seq<Option<map<string, string>>>, key: string): (r: Result<string>)
    ensures FirstHolder(enumerated, key).None? ==> r == Failure(Panic("No value present for " + key))
    ensures r.Success? ==> (FirstHolder(enumerated, key).Some?
                            && |FirstHolder(enumerated, key).value| >= |Prefix|
                            && Decode(FirstHolder(enumerated, key).value[|Prefix|..]).Some?)
    ensures var v := FirstHolder(enumerated, key);
            v.Some? && |v.value| < |Prefix| ==>
              r == Failure(Panic("runtime error: slice bounds out of range [7:" + NatText(|v.value|) + "]"))
    ensures var v := FirstHolder(enumerated, key);
            v.Some? && |v.value| >= |Prefix| && Decode(v.value[|Prefix|..]).None? ==>
              r == Failure(Panic("Cannot decode " + key + ": " + v.value + "\nCaused by: illegal base64 data"))
    ensures r.Success? ==> r.value == TrimLineEnds(BytesToString(Decode(FirstHolder(enumerated, key).value[|Prefix|..]).value))
  {
    match FirstHolder(enumerated, key)
    case None => Failure(Panic("No value present for " + key))
    case Some(value) =>
      if |value| < |Prefix| then
        Failure(Panic("runtime error: slice bounds out of range [7:" + NatText(|value|) + "]"))
      else
        match Decode(value[|Prefix|..])
        case None => Failure(Panic("Cannot decode " + key + ": " + value + "\nCaused by: illegal base64 data"))
        case Some(decoded) => Success(TrimLineEnds(BytesToString(decoded)))
  }

  /** `Properties()`: nil, so the source is derived and is never consulted
      by another derived source. */
  function Properties(): Option<map<string, string>> {
    None
  }

  /** A value stored as `Base64:` followed by the encoding of some bytes is
      reported present and reads back as those bytes, less trailing line
      breaks. */
  lemma PropertyOfEncoded(enumerated: seq<Option<map<string, string>>>, key: string, bs: seq<byte>)
    requires FirstHolder(enumerated, key) == Some(Prefix + Encode(bs))
    ensures HasProperty(enumerated, key)
    ensures Property(enumerated, key) == Success(TrimLineEnds(BytesToString(bs)))
  {
    var value := Prefix + Encode(bs);
    assert value[|Prefix|..] == Encode(bs);
    assert value[..|Prefix|] == Prefix;
    DecodeEncode(bs);
  }

  /** A derived source listed before the holder is skipped: only maps are
      consulted. */
  lemma DerivedSourcesAreSkipped(enumerated: seq<Option<map<string, string>>>, key: string)
    ensures FirstHolder([Properties()] + enumerated, key) == FirstHolder(enumerated, key)
  {
    var e := [Properties()] + enumerated;
    assert e[1..] == enumerated;
  }
}
