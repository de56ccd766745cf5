/** env/RandomValuePropertySource.go: the derived source that answers every
    key under `random.` with freshly generated text.

    Randomness is an input: each lookup receives the bytes the system's
    random reader would deliver, as a finite supply. A supply that runs out
    is the read error the source turns into a panic. */
module RandomValues {
  import opened Wrappers
  import opened Strings
  import opened Bytes
  import Optionals

  const SourceName: string := "RandomValuePropertySource"
  const KeyPrefix: string := "random."

  /** The 62 characters `RandomString` draws from: `a`-`z`, `A`-`Z`, then
      `0`-`9`. */
  const Letters: string := CharRun('a', 26) + CharRun('A', 26) + CharRun('0', 10)

  /** `n` consecutive characters starting at `first`. */
  function CharRun(first: char, n: nat): (s: string)
    requires first as int + n <= 128
    ensures |s| == n
    ensures forall i :: 0 <= i < n ==> s[i] as int == first as int + i
    decreases n
  {
    if n == 0 then "" else [first] + CharRun((first as int + 1) as char, n - 1)
  }

  const GenerateMessage: string := "Cannot generate random value"

  /** `HasProperty(key)`: every key under `random.` is claimed, whether or
      not `Property` can serve it. */
  predicate HasProperty(key: string) {
    HasPrefix(key, KeyPrefix)
  }

  /** `Properties()`: nil, so the source is derived. */
  function Properties(): Option<map<string, string>> {
    None
  }

  // ---------------------------------------------------------------------
  // The key grammar
  // ---------------------------------------------------------------------

  /** The range arguments of `int(...)` and `int64(...)`: `max` alone, or
      `min,max`. */
  datatype Bound = Bound(min: Option<string>, max: string)

  /** The alternatives of `keyPattern` after `random.`, with the text of the
      named groups that take part. */
  datatype KeyForm =
    | Uuid
    | Text(size: string)
    | HexValue(bytes: Option<string>)
    | Int32(range: Option<Bound>)
    | Int64(range: Option<Bound>)

  /** `-?\d+`. */
  predicate SignedDigits(s: string) {
    AllDigits(s) || (|s| >= 2 && s[0] == '-' && AllDigits(s[1..]))
  }

  predicate WellFormedBound(b: Bound) {
    AllDigits(b.max) && (b.min.Some? ==> SignedDigits(b.min.value))
  }

  /** The group texts a match of `keyPattern` can produce. */
  predicate WellFormed(f: KeyForm) {
    match f
    case Uuid => true
    case Text(size) => AllDigits(size)
    case HexValue(bytes) => bytes.Some? ==> AllDigits(bytes.value)
    case Int32(range) => range.Some? ==> WellFormedBound(range.value)
    case Int64(range) => range.Some? ==> WellFormedBound(range.value)
  }

  /** The argument text of a range: `max` or `min,max`. */
  function BoundArgs(b: Bound): string {
    match b.min
    case None => b.max
    case Some(min) => min + "," + b.max
  }

  /** `name(arg)`. */
  function CallText(name: string, arg: string): string {
    name + "(" + arg + ")"
  }

  /** The key a form is read from, the partner of `ParseKey`. */
  function KeyText(f: KeyForm): string {
    KeyPrefix + BodyText(f)
  }

  function BodyText(f: KeyForm): string {
    match f
    case Uuid => "uuid"
    case Text(size) => CallText("string", size)
    case HexValue(bytes) => if bytes.None? then "value" else CallText("value", bytes.value)
    case Int32(range) => if range.None? then "int" else CallText("int", BoundArgs(range.value))
    case Int64(range) => if range.None? then "int64" else CallText("int64", BoundArgs(range.value))
  }

  /** The argument text of `name(...)`, when `r` has that shape. */
  function Call(r: string, name: string): (arg: Option<string>)
    ensures arg.Some? ==> r == CallText(name, arg.value)
  {
    if |r| >= |name| + 2 && r[..|name| + 1] == name + "(" && r[|r| - 1] == ')' then
      var arg := r[|name| + 1..|r| - 1];
      assert r == r[..|name| + 1] + arg + [r[|r| - 1]];
      Some(arg)
    else None
  }

  /** `max` or `min,max`. */
  function ParseBound(a: string): (b: Option<Bound>)
    ensures b.Some? ==> WellFormedBound(b.value) && BoundArgs(b.value) == a
  {
    if AllDigits(a) then Some(Bound(None, a))
    else
      var i := IndexOf(a, ',');
      if i < |a| && SignedDigits(a[..i]) && AllDigits(a[i + 1..]) then
        assert a == a[..i] + "," + a[i + 1..];
        Some(Bound(Some(a[..i]), a[i + 1..]))
      else None
  }

  /** The alternatives with an argument list. */
  function ParseCallBody(r: string): (f: Option<KeyForm>)
    ensures f.Some? ==> WellFormed(f.value) && BodyText(f.value) == r
  {
    var text, value, int32, int64 := Call(r, "string"), Call(r, "value"), Call(r, "int"), Call(r, "int64");
    if text.Some? && AllDigits(text.value) then Some(Text(text.value))
    else if value.Some? && AllDigits(value.value) then Some(HexValue(Some(value.value)))
    else if int32.Some? && ParseBound(int32.value).Some? then Some(Int32(ParseBound(int32.value)))
    else if int64.Some? && ParseBound(int64.value).Some? then Some(Int64(ParseBound(int64.value)))
    else None
  }

  /** The text after `random.` against the alternatives of `keyPattern`;
      the pattern is anchored at both ends, so the whole text must fit. */
  function ParseBody(r: string): (f: Option<KeyForm>)
    ensures f.Some? ==> WellFormed(f.value) && BodyText(f.value) == r
  {
    if r == "uuid" then Some(Uuid)
    else if r == "value" then Some(HexValue(None))
    else if r == "int" then Some(Int32(None))
    else if r == "int64" then Some(Int64(None))
    else ParseCallBody(r)
  }

  /** The match of `keyPattern` against a whole key, if there is one. */
  function ParseKey(key: string): (f: Option<KeyForm>)
    ensures f.Some? ==> HasProperty(key) && WellFormed(f.value) && KeyText(f.value) == key
  {
    if HasPrefix(key, KeyPrefix) then
      var r := ParseBody(key[|KeyPrefix|..]);
      assert r.Some? ==> key == KeyPrefix + BodyText(r.value) by {
        assert key == key[..|KeyPrefix|] + key[|KeyPrefix|..];
      }
      r
    else None
  }

  /** `Call` reads back the argument of `CallText`. */
  lemma CallOfCallText(name: string, arg: string)
    ensures Call(CallText(name, arg), name) == Some(arg)
  {
    var r := CallText(name, arg);
    assert r[..|name| + 1] == name + "(";
    assert r[|name| + 1..|r| - 1] == arg;
  }

  /** A call of one name is not a call of another whose opening text
      differs at position `i`. */
  lemma CallOfOtherName(name: string, other: string, arg: string, i: nat)
    requires i < |name| + 1 && i < |other| + 1
    requires (name + "(")[i] != (other + "(")[i]
    ensures Call(CallText(name, arg), other).None?
  {
    var r := CallText(name, arg);
    if |r| >= |other| + 2 {
      assert r[..|other| + 1][i] == (name + "(")[i];
    }
  }

  lemma {:induction false} ParseBoundOfArgs(b: Bound)
    requires WellFormedBound(b)
    ensures ParseBound(BoundArgs(b)) == Some(b)
  {
    var a := BoundArgs(b);
    if b.min.Some? {
      var m := b.min.value;
      assert a == m + "," + b.max;
      assert a[|m|] == ',';
      assert !AllDigits(a);
      assert forall j :: 0 <= j < |m| ==> a[j] == m[j] && m[j] != ',' by {
        assert forall j :: 0 <= j < |m| ==> m[j] == '-' || IsDigit(m[j]);
      }
      assert IndexOf(a, ',') == |m|;
      assert a[..|m|] == m && a[|m| + 1..] == b.max;
    }
  }

  /** Every well-formed form is read back from its key: `ParseKey` and
      `KeyText` are inverse on the language of `keyPattern`. */
  lemma ParseKeyText(f: KeyForm)
    requires WellFormed(f)
    ensures ParseKey(KeyText(f)) == Some(f)
  {
    var key := KeyText(f);
    var r := BodyText(f);
    assert key[..|KeyPrefix|] == KeyPrefix && key[|KeyPrefix|..] == r;
    match f
    case Uuid =>
    case Text(size) =>
      assert |r| >= 8 && r[0] == 's';
      CallOfCallText("string", size);
    case HexValue(bytes) =>
      if bytes.Some? {
        assert |r| >= 8 && r[0] == 'v';
        CallOfOtherName("value", "string", bytes.value, 0);
        CallOfCallText("value", bytes.value);
      }
    case Int32(range) =>
      if range.Some? {
        var args := BoundArgs(range.value);
        assert |r| >= 6 && r[3] == '(';
        CallOfOtherName("int", "string", args, 0);
        CallOfOtherName("int", "value", args, 0);
        CallOfCallText("int", args);
        ParseBoundOfArgs(range.value);
      }
    case Int64(range) =>
      if range.Some? {
        var args := BoundArgs(range.value);
        assert |r| >= 8 && r[3] == '6';
        CallOfOtherName("int64", "string", args, 0);
        CallOfOtherName("int64", "value", args, 0);
        CallOfOtherName("int64", "int", args, 3);
        CallOfCallText("int64", args);
        ParseBoundOfArgs(range.value);
      }
  }

  /** Each key `ParseKey` accepts is the text of the form it yields, and
      only such keys are accepted. */
  lemma ParseKeyIsInverse(key: string, f: KeyForm)
    ensures ParseKey(key) == Some(f) <==> (WellFormed(f) && KeyText(f) == key)
  {
    if WellFormed(f) && KeyText(f) == key {
      ParseKeyText(f);
    }
  }

  // ---------------------------------------------------------------------
  // strconv
  // ---------------------------------------------------------------------

  /** Decimal text with an optional sign, as `strconv.ParseInt` accepts it
      in base 10. */
  predicate IsDecimal(s: string) {
    AllDigits(s) || (|s| >= 2 && (s[0] == '-' || s[0] == '+') && AllDigits(s[1..]))
  }

  function DecimalValue(s: string): int
    requires IsDecimal(s)
  {
    if AllDigits(s) then DigitsValue(s)
    else if s[0] == '-' then -(DigitsValue(s[1..]) as int)
    else DigitsValue(s[1..])
  }

  function Pow2(k: nat): (p: nat)
    ensures p >= 1
  {
    if k == 0 then 1 else 2 * Pow2(k - 1)
  }

  /** The value range of a signed integer of `bits` bits. */
  predicate InIntRange(x: int, bits: nat)
    requires bits == 32 || bits == 64
  {
    if bits == 32 then IsInt32(x) else IsInt64(x)
  }

  /** `strconv.ParseInt(s, 10, bits)`, reported through `OfCommaErr`: a
      value outside the range is the error `value out of range`, named after
      the function `fname`. */
  function ParseInt(s: string, bits: nat, fname: string): (o: Optionals.Optional<int>)
    requires IsDecimal(s) && (bits == 32 || bits == 64)
    ensures o.Of? <==> InIntRange(DecimalValue(s), bits)
    ensures o.Of? ==> o.value == DecimalValue(s)
    ensures !o.Of? ==> o == Optionals.Errored(fname + ": parsing \"" + s + "\": value out of range")
    ensures AllDigits(s) && o.Of? ==> o.value >= 0
  {
    var v := DecimalValue(s);
    if InIntRange(v, bits) then Optionals.OfCommaErr(v, None)
    else Optionals.OfCommaErr(0, Some(fname + ": parsing \"" + s + "\": value out of range"))
  }

  /** `strconv.Atoi`: `int` is 64 bits wide. */
  function Atoi(s: string): (o: Optionals.Optional<int>)
    requires IsDecimal(s)
    ensures o.Of? <==> IsInt64(DecimalValue(s))
    ensures o.Of? ==> o.value == DecimalValue(s)
    ensures !o.Of? ==> o == Optionals.Errored("strconv.Atoi: parsing \"" + s + "\": value out of range")
    ensures AllDigits(s) && o.Of? ==> o.value >= 0
  {
    ParseInt(s, 64, "strconv.Atoi")
  }

  // ---------------------------------------------------------------------
  // Integer widths
  // ---------------------------------------------------------------------

  const TwoTo31: int := 0x8000_0000
  const TwoTo32: int := 0x1_0000_0000
  const TwoTo63: int := 0x8000_0000_0000_0000
  const TwoTo64: int := 0x1_0000_0000_0000_0000

  const MinInt64: int := -TwoTo63
  const MaxInt64: int := TwoTo63 - 1

  predicate IsInt64(x: int) {
    -TwoTo63 <= x < TwoTo63
  }

  predicate IsInt32(x: int) {
    -TwoTo31 <= x < TwoTo31
  }

  /** Go's two's-complement conversion to `int64`: the low 64 bits. */
  function Int64Of(x: int): (r: int)
    ensures IsInt64(r)
    ensures IsInt64(x) ==> r == x
  {
    (x + TwoTo63) % TwoTo64 - TwoTo63
  }

  /** Go's conversion `int32(x)`: the low 32 bits. */
  function Int32Of(x: int): (r: int)
    ensures IsInt32(r)
    ensures IsInt32(x) ==> r == x
  {
    (x + TwoTo31) % TwoTo32 - TwoTo31
  }

  // ---------------------------------------------------------------------
  // The random reader
  // ---------------------------------------------------------------------

  /** The panic of `OrElsePanic("Cannot generate random value")` after a
      short read: `io.ReadFull` reports `EOF` when nothing was read and
      `unexpected EOF` when only part was. */
  function NoEntropy<T>(available: nat): (r: Result<T>)
    ensures r.Failure?
  {
    Failure(Panic(GenerateMessage + "\nCaused by: " + (if available == 0 then "EOF" else "unexpected EOF")))
  }

  /** `rand.Read` of `n` bytes. */
  function ReadFull(n: nat, supply: seq<byte>): (r: Result<seq<byte>>)
    ensures r.Success? <==> n <= |supply|
    ensures r.Success? ==> r.value == supply[..n]
    ensures r.Failure? ==> r == NoEntropy(|supply|)
  {
    if n <= |supply| then Success(supply[..n]) else NoEntropy(|supply|)
  }

  /** `n.BitLen()`: the number of bits needed to write `n`. */
  function BitLen(n: nat): (k: nat)
    ensures n < Pow2(k)
    ensures k > 0 ==> Pow2(k - 1) <= n
  {
    if n == 0 then 0 else 1 + BitLen(n / 2)
  }

  /** `SetBytes`: a big-endian unsigned number. */
  function BigEndian(bs: seq<byte>): nat {
    if bs == [] then 0 else BigEndian(bs[..|bs| - 1]) * 256 + bs[|bs| - 1] as int
  }

  /** `x & (1<<b - 1)`: the low `b` bits of a byte. */
  function LowBits(x: byte, b: nat): (r: byte)
    requires b <= 8
    ensures r as int == x as int % Pow2(b)
  {
    var p := Pow2(b);
    assert p <= 256 by {
      Pow2Monotonic(b, 8);
      assert Pow2(8) == 256 by {
        assert Pow2(1) == 2 && Pow2(2) == 4 && Pow2(3) == 8 && Pow2(4) == 16;
        assert Pow2(5) == 32 && Pow2(6) == 64 && Pow2(7) == 128;
      }
    }
    (x as int % p) as byte
  }

  lemma {:induction false} Pow2Monotonic(a: nat, c: nat)
    requires a <= c
    ensures Pow2(a) <= Pow2(c)
    decreases c - a
  {
    if a < c {
      Pow2Monotonic(a, c - 1);
    }
  }

  /** A value drawn by `rand.Int` and the bytes left after it. */
  datatype Drawn = Drawn(value: nat, rest: seq<byte>)

  /** `rand.Int(rand.Reader, max)`: reads as many bytes as `max - 1` needs,
      clears the surplus high bits of the first one, and tries again with
      fresh bytes until the number is below `max`. */
  function RandInt(max: nat, supply: seq<byte>): (r: Result<Drawn>)
    requires max >= 1
    ensures r.Success? ==> r.value.value < max && |r.value.rest| <= |supply|
    ensures r.Failure? ==> r == NoEntropy(0) || r == NoEntropy(1)
    decreases |supply|
  {
    var bitLen := BitLen(max - 1);
    if bitLen == 0 then Success(Drawn(0, supply))
    else
      var k := (bitLen + 7) / 8;
      var b := if bitLen % 8 == 0 then 8 else bitLen % 8;
      if |supply| < k then NoEntropy(|supply|)
      else
        var bytes := [LowBits(supply[0], b)] + supply[1..k];
        var n := BigEndian(bytes);
        if n < max then Success(Drawn(n, supply[k..]))
        else RandInt(max, supply[k..])
  }

  // ---------------------------------------------------------------------
  // The generators
  // ---------------------------------------------------------------------

  /** The panic of `lang.AssertState(max > min, "Invalid range, [%d, %d)")`. */
  function InvalidRange(min: int, max: int): Error {
    Panic("Invalid range, [" + IntText(min) + ", " + IntText(max) + ")")
  }

  /** `RandomInt64Value(min, max)`: `min` plus a number drawn below
      `max - min`. The draw is converted to `int64` and added with
      wrap-around, as Go computes it. */
  function RandomInt64Value(min: int, max: int, supply: seq<byte>): (r: Result<int>)
    requires IsInt64(min) && IsInt64(max)
    ensures max <= min ==> r == Failure(InvalidRange(min, max))
    ensures r.Success? ==> min <= r.value < max
    ensures max > min ==> match RandInt(max - min, supply)
                          case Success(d) => r == Success(min + d.value)
                          case Failure(e) => r == Failure(e)
  {
    if !(max > min) then Failure(InvalidRange(min, max))
    else
      var d :- RandInt(max - min, supply);
      WrapCancels(d.value, min);
      Success(Int64Of(Int64Of(d.value) + min))
  }

  /** Adding a draw below `2^64` to `min` in 64-bit arithmetic gives the
      true sum whenever that sum is itself an `int64`. */
  lemma WrapCancels(d: nat, min: int)
    requires IsInt64(min) && IsInt64(min + d)
    ensures Int64Of(Int64Of(d) + min) == min + d
  {
    if d >= TwoTo63 {
      assert Int64Of(d) == d - TwoTo64;
      var y := d - TwoTo64 + min;
      assert -TwoTo64 <= y + TwoTo63 < 0;
      assert (y + TwoTo63) % TwoTo64 == y + TwoTo63 + TwoTo64;
    }
  }

  /** RFC 4122 sections 4.1.1 and 4.1.3: version 4 in the high nibble of
      byte 6, variant bits `10` at the top of byte 8, every other bit as
      drawn. */
  function Stamp(u: seq<byte>): (v: seq<byte>)
    requires |u| == 16
    ensures |v| == 16
    ensures forall i :: 0 <= i < 16 && i != 6 && i != 8 ==> v[i] == u[i]
    ensures v[6] as int / 16 == 4 && v[6] as int % 16 == u[6] as int % 16
    ensures v[8] as int / 64 == 2 && v[8] as int % 64 == u[8] as int % 64
  {
    u[6 := (u[6] as int % 16 + 0x40) as byte][8 := (u[8] as int % 64 + 0x80) as byte]
  }

  /** `%08x-%04x-%04x-%04x-%012x` of the byte groups 4, 2, 2, 2 and 6. */
  function UuidText(v: seq<byte>): (s: string)
    requires |v| == 16
    ensures |s| == 36
    ensures s[8] == '-' && s[13] == '-' && s[18] == '-' && s[23] == '-'
  {
    Hex(v[..4]) + "-" + Hex(v[4..6]) + "-" + Hex(v[6..8]) + "-" + Hex(v[8..10]) + "-" + Hex(v[10..])
  }

  /** The hex digits of a UUID without its dashes. */
  function Undashed(s: string): string
    requires |s| == 36
  {
    s[..8] + s[9..13] + s[14..18] + s[19..23] + s[24..]
  }

  /** `RandomUuid()`: sixteen bytes, stamped and formatted. */
  function RandomUuid(supply: seq<byte>): (r: Result<string>)
    ensures r.Success? <==> |supply| >= 16
    ensures r.Failure? ==> r == NoEntropy(|supply|)
    ensures r.Success? ==> |r.value| == 36 && r.value[14] == '4' && r.value[19] in "89ab"
  {
    var u :- ReadFull(16, supply);
    var v := Stamp(u);
    UuidDigits(v);
    Success(UuidText(v))
  }

  /** The version digit and the variant digit of the text. */
  lemma UuidDigits(v: seq<byte>)
    requires |v| == 16
    requires v[6] as int / 16 == 4 && v[8] as int / 64 == 2
    ensures UuidText(v)[14] == '4' && UuidText(v)[19] in "89ab"
  {
    var s := UuidText(v);
    assert s[14..18] == Hex(v[6..8]);
    assert Hex(v[6..8])[0] == HexChar(v[6] as int / 16);
    assert s[19..23] == Hex(v[8..10]);
    var hi := v[8] as int / 16;
    assert Hex(v[8..10])[0] == HexChar(hi);
    assert 8 <= hi < 12;
    assert HexChar(hi) == HexDigits[hi];
  }

  /** The hex digits of the text read back as the bytes. */
  /** Dropping the dashes leaves the five hex groups side by side. */
  lemma UndashedGroups(v: seq<byte>)
    requires |v| == 16
    ensures Undashed(UuidText(v)) == Hex(v[..4]) + Hex(v[4..6]) + Hex(v[6..8]) + Hex(v[8..10]) + Hex(v[10..])
  {
    var s := UuidText(v);
    assert s[..8] == Hex(v[..4]) && s[9..13] == Hex(v[4..6]) && s[14..18] == Hex(v[6..8]);
    assert s[19..23] == Hex(v[8..10]) && s[24..] == Hex(v[10..]);
  }

  /** The five groups together are the hex of all sixteen bytes. */
  lemma HexOfGroups(v: seq<byte>)
    requires |v| == 16
    ensures Hex(v[..4]) + Hex(v[4..6]) + Hex(v[6..8]) + Hex(v[8..10]) + Hex(v[10..]) == Hex(v)
  {
    HexAppend(v[..4], v[4..6]);
    HexAppend(v[..4] + v[4..6], v[6..8]);
    HexAppend(v[..4] + v[4..6] + v[6..8], v[8..10]);
    HexAppend(v[..4] + v[4..6] + v[6..8] + v[8..10], v[10..]);
    assert v[..4] + v[4..6] + v[6..8] + v[8..10] + v[10..] == v;
  }

  lemma UuidHex(v: seq<byte>)
    requires |v| == 16
    ensures ParseHex(Undashed(UuidText(v))) == v
  {
    UndashedGroups(v);
    HexOfGroups(v);
    ParseHexOfHex(v);
  }

  /** A UUID text carries the drawn bytes, stamped: the hex digits read back
      are `Stamp` of the first sixteen bytes of the supply. */
  lemma RandomUuidBytes(supply: seq<byte>)
    requires |supply| >= 16
    ensures ParseHex(Undashed(RandomUuid(supply).value)) == Stamp(supply[..16])
  {
    UuidHex(Stamp(supply[..16]));
  }

  /** `RandomValue(n)`: `n` bytes as lowercase hex. */
  function RandomValue(n: nat, supply: seq<byte>): (r: Result<string>)
    ensures r.Success? <==> |supply| >= n
    ensures r.Failure? ==> r == NoEntropy(|supply|)
    ensures r.Success? ==> |r.value| == 2 * n && (forall i :: 0 <= i < |r.value| ==> IsHexDigit(r.value[i]))
    ensures r.Success? ==> ParseHex(r.value) == supply[..n]
  {
    var buf :- ReadFull(n, supply);
    ParseHexOfHex(buf);
    Success(Hex(buf))
  }

  /** Characters of `Letters`: ASCII letters and digits. */
  predicate IsAlphanumeric(c: char) {
    IsWordChar(c) && c != '_'
  }

  /** `RandomString(n)`: one character of `Letters` per byte, chosen by the
      byte modulo 62. */
  function RandomString(n: nat, supply: seq<byte>): (r: Result<string>)
    ensures r.Success? <==> |supply| >= n
    ensures r.Failure? ==> r == NoEntropy(|supply|)
    ensures r.Success? ==> |r.value| == n
    ensures r.Success? ==> forall i :: 0 <= i < n ==> r.value[i] == Letters[supply[i] as int % |Letters|]
  {
    var bytes :- ReadFull(n, supply);
    Success(LettersOf(bytes))
  }

  function LettersOf(bytes: seq<byte>): (s: string)
    ensures |s| == |bytes|
    ensures forall i :: 0 <= i < |bytes| ==> s[i] == Letters[bytes[i] as int % |Letters|]
  {
    if bytes == [] then "" else [Letters[bytes[0] as int % |Letters|]] + LettersOf(bytes[1..])
  }

  /** Every character `RandomString` produces is an ASCII letter or digit. */
  lemma RandomStringIsAlphanumeric(n: nat, supply: seq<byte>)
    requires RandomString(n, supply).Success?
    ensures forall i :: 0 <= i < n ==> IsAlphanumeric(RandomString(n, supply).value[i])
  {
    var lower, upper, digits := CharRun('a', 26), CharRun('A', 26), CharRun('0', 10);
    assert forall j :: 0 <= j < |Letters| ==> Letters[j] == if j < 26 then lower[j] else if j < 52 then upper[j - 26] else digits[j - 52];
  }

  // ---------------------------------------------------------------------
  // Property
  // ---------------------------------------------------------------------

  /** `Property(key)`: the one match of the anchored `keyPattern`, or the
      panic "Cannot process <key>". */
  function Property(key: string, supply: seq<byte>): (r: Result<string>)
    ensures ParseKey(key).None? ==> r == Failure(Panic("Cannot process " + key))
    ensures r.Success? ==> HasProperty(key)
  {
    match ParseKey(key)
    case None => Failure(Panic("Cannot process " + key))
    case Some(f) => Generate(f, key, supply)
  }

  /** The alternatives in the order the source tests their named groups:
      `uuid`, `string`, `value`, `int`, `int64`. */
  function Generate(f: KeyForm, key: string, supply: seq<byte>): (r: Result<string>)
    requires WellFormed(f)
  {
    match f
    case Uuid => RandomUuid(supply)
    case Text(size) =>
      var n :- Optionals.OrElsePanic(Atoi(size), "Cannot parse size " + key);
      RandomString(n, supply)
    case HexValue(bytes) =>
      var n :- Optionals.OrElsePanic(Atoi(if bytes.Some? then bytes.value else "8"), "Cannot parse bytes " + key);
      RandomValue(n, supply)
    case Int32(range) =>
      var v :- RangeValue(range, 32, key, supply);
      Success(IntText(Int32Of(v)))
    case Int64(range) =>
      var v :- RangeValue(range, 64, key, supply);
      Success(IntText(v))
  }

  /** The number drawn for `int` or `int64`: the full 64-bit range without
      arguments, otherwise `[min, max)` with `min` defaulting to `0` and both
      parsed at the given width. */
  function RangeValue(range: Option<Bound>, bits: nat, key: string, supply: seq<byte>): (r: Result<int>)
    requires bits == 32 || bits == 64
    requires range.Some? ==> WellFormedBound(range.value)
    ensures range.None? ==> r == RandomInt64Value(MinInt64, MaxInt64, supply)
    ensures r.Success? ==> IsInt64(r.value)
    ensures r.Success? && range.Some? ==> InIntRange(r.value, bits)
    ensures r.Success? && range.Some? ==>
              var min := if range.value.min.Some? then DecimalValue(range.value.min.value) else 0;
              min <= r.value < DecimalValue(range.value.max)
  {
    match range
    case None => RandomInt64Value(MinInt64, MaxInt64, supply)
    case Some(b) =>
      var minText := if b.min.Some? then b.min.value else "0";
      var min :- Optionals.OrElsePanic(ParseInt(minText, bits, "strconv.ParseInt"), "Cannot parse min " + key);
      var max :- Optionals.OrElsePanic(ParseInt(b.max, bits, "strconv.ParseInt"), "Cannot parse max " + key);
      RandomInt64Value(min, max, supply)
  }

  /** A negative number's text is a minus sign and the digits of its
      magnitude. */
  lemma DecimalOfNegative(i: int)
    requires i < 0
    ensures SignedDigits(IntText(i)) && IsDecimal(IntText(i))
    ensures DecimalValue(IntText(i)) == i
  {
    var s := IntText(i);
    assert s[1..] == NatText(-i);
    assert !IsDigit(s[0]);
    DigitsValueOfNatText(-i);
  }

  /** Printed integers are decimal text that reads back as the integer. */
  lemma DecimalOfIntText(i: int)
    ensures SignedDigits(IntText(i)) && IsDecimal(IntText(i))
    ensures DecimalValue(IntText(i)) == i
  {
    if i < 0 {
      DecimalOfNegative(i);
    } else {
      DigitsValueOfNatText(i);
    }
  }

  /** `random.uuid` gives 36 characters. */
  lemma UuidKeyLength(supply: seq<byte>)
    requires |supply| >= 16
    ensures Property("random.uuid", supply).Success?
    ensures |Property("random.uuid", supply).value| == 36
  {
    assert KeyText(Uuid) == "random.uuid";
    ParseKeyText(Uuid);
  }

  /** `random.string(n)` gives `n` characters. */
  lemma StringKeyLength(n: nat, supply: seq<byte>)
    requires IsInt64(n) && |supply| >= n
    ensures Property(KeyText(Text(NatText(n))), supply).Success?
    ensures |Property(KeyText(Text(NatText(n))), supply).value| == n
  {
    ParseKeyText(Text(NatText(n)));
    DigitsValueOfNatText(n);
  }

  /** `random.value(n)` gives `2n` hex digits, and `random.value` gives 16. */
  lemma ValueKeyLength(n: nat, supply: seq<byte>)
    requires IsInt64(n) && |supply| >= n
    ensures Property(KeyText(HexValue(Some(NatText(n)))), supply).Success?
    ensures |Property(KeyText(HexValue(Some(NatText(n)))), supply).value| == 2 * n
  {
    ParseKeyText(HexValue(Some(NatText(n))));
    DigitsValueOfNatText(n);
  }

  /** `random.value` without a length gives eight bytes, sixteen hex
      digits. */
  lemma DefaultValueKeyLength(supply: seq<byte>)
    requires |supply| >= 8
    ensures Property("random.value", supply).Success?
    ensures |Property("random.value", supply).value| == 16
  {
    assert KeyText(HexValue(None)) == "random.value";
    ParseKeyText(HexValue(None));
    assert DigitsValue("8") == 8;
  }

  /** `random.int(min,max)` prints a number in `[min, max)`; an empty range
      is the "Invalid range" panic. */
  lemma IntKeyRange(min: int, max: nat, supply: seq<byte>)
    requires IsInt32(min) && IsInt32(max)
    ensures var r := Property(KeyText(Int32(Some(Bound(Some(IntText(min)), NatText(max))))), supply);
            (r.Success? ==> exists v :: min <= v < max && r.value == IntText(v))
            && (max <= min ==> r == Failure(InvalidRange(min, max)))
  {
    DecimalOfIntText(min);
    DecimalOfIntText(max);
    assert IntText(max) == NatText(max);
    ParseKeyText(Int32(Some(Bound(Some(IntText(min)), NatText(max)))));
  }

  /** `random.int(max)` prints a number in `[0, max)`: the lower bound
      defaults to zero. */
  lemma IntKeyMaxRange(max: nat, supply: seq<byte>)
    requires IsInt32(max)
    ensures var r := Property(KeyText(Int32(Some(Bound(None, NatText(max))))), supply);
            (r.Success? ==> exists v :: 0 <= v < max && r.value == IntText(v))
            && (max == 0 ==> r == Failure(InvalidRange(0, 0)))
  {
    DecimalOfIntText(max);
    assert IntText(max) == NatText(max);
    ParseKeyText(Int32(Some(Bound(None, NatText(max)))));
    assert DigitsValue("0") == 0;
    DecimalOfIntText(0);
  }

  /** `random.int` without arguments prints an `int32`. */
  lemma IntKeyFullRange(supply: seq<byte>)
    ensures var r := Property("random.int", supply);
            r.Success? ==> exists v :: IsInt32(v) && r.value == IntText(v)
  {
    assert KeyText(Int32(None)) == "random.int";
    ParseKeyText(Int32(None));
  }

  /** `random.int64(max)` prints a number in `[0, max)`. */
  lemma Int64KeyMaxRange(max: nat, supply: seq<byte>)
    requires IsInt64(max)
    ensures var r := Property(KeyText(Int64(Some(Bound(None, NatText(max))))), supply);
            (r.Success? ==> exists v :: 0 <= v < max && r.value == IntText(v))
            && (max == 0 ==> r == Failure(InvalidRange(0, 0)))
  {
    DecimalOfIntText(max);
    assert IntText(max) == NatText(max);
    ParseKeyText(Int64(Some(Bound(None, NatText(max)))));
    assert DigitsValue("0") == 0;
    DecimalOfIntText(0);
  }

  /** `random.int64(min,max)` prints a number in `[min, max)`. */
  lemma Int64KeyRange(min: int, max: nat, supply: seq<byte>)
    requires IsInt64(min) && IsInt64(max)
    ensures var r := Property(KeyText(Int64(Some(Bound(Some(IntText(min)), NatText(max))))), supply);
            (r.Success? ==> exists v :: min <= v < max && r.value == IntText(v))
            && (max <= min ==> r == Failure(InvalidRange(min, max)))
  {
    DecimalOfIntText(min);
    DecimalOfIntText(max);
    assert IntText(max) == NatText(max);
    ParseKeyText(Int64(Some(Bound(Some(IntText(min)), NatText(max)))));
  }
}
