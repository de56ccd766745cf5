/** Go's dynamic values (`any`) as far as the resolution engine observes them,
    and their text under `fmt.Sprint`.

    The template scanner and the expression backend pass around values of any
    Go type. The model distinguishes the shapes the core reacts to: strings
    (spliced verbatim), the nil values that `lang.IsNil` recognises, and the
    other results the backend produces (integers, booleans, slices, maps,
    durations). A value of a type the model does not interpret is `Opaque`,
    carrying the text `fmt.Sprint` prints for it. */
module Values {
  import opened Strings

  /** The kinds of Go nil the core can meet: an unset interface, a nil
      pointer, a nil map and a nil slice. */
  datatype NilKind = NilInterface | NilPointer | NilMap | NilSlice

  /** One key of a Go map. `fmt.Sprint` prints a map with its keys sorted, so
      a `Dict` keeps its entries in ascending key order. */
  datatype Entry = Entry(key: string, value: Value)

  datatype Value =
    | Str(s: string)
    | Int(i: int)
    | Bool(b: bool)
    | Nil(kind: NilKind)
    | List(items: seq<Value>)
    | Dict(entries: seq<Entry>)
    | Duration(nanos: int)
    | Opaque(text: string)

  /** `lang.IsNil`: true for the nil interface, nil pointers, nil maps and nil
      slices; false for every other value, including `0` and `""`. */
  predicate IsNil(v: Value) {
    v.Nil?
  }

  /** `fmt.Sprint(v)`. */
  function Sprint(v: Value): string
    decreases v
  {
    match v
    case Str(s) => s
    case Int(i) => IntText(i)
    case Bool(b) => if b then "true" else "false"
    case Nil(kind) =>
      (match kind
       case NilInterface => "<nil>"
       case NilPointer => "<nil>"
       case NilMap => "map[]"
       case NilSlice => "[]")
    case List(items) => "[" + SprintItems(items) + "]"
    case Dict(entries) => "map[" + SprintEntries(entries) + "]"
    case Duration(nanos) => DurationText(nanos)
    case Opaque(text) => text
  }

  /** Slice elements separated by single spaces. */
  function SprintItems(items: seq<Value>): string
    decreases items
  {
    if items == [] then ""
    else if |items| == 1 then Sprint(items[0])
    else Sprint(items[0]) + " " + SprintItems(items[1..])
  }

  /** Map entries as `key:value`, separated by single spaces. */
  function SprintEntries(entries: seq<Entry>): string
    decreases entries
  {
    if entries == [] then ""
    else
      var head := entries[0].key + ":" + Sprint(entries[0].value);
      if |entries| == 1 then head else head + " " + SprintEntries(entries[1..])
  }

  /** `time.Duration.String()`: `0s`; below one second a number with a
      fraction in `ns`, `µs` (two bytes, U+00B5 in UTF-8) or `ms`; otherwise
      hours, minutes and fractional seconds such as `1h0m0s` or `1.5s`. */
  function DurationText(nanos: int): string {
    var u: nat := if nanos < 0 then -nanos else nanos;
    var body :=
      if u == 0 then "0s"
      else if u < 1000 then NatText(u) + "ns"
      else if u < 1000000 then NatText(u / 1000) + FractionText(u % 1000, 3) + "\U{C2}\U{B5}s"
      else if u < 1000000000 then NatText(u / 1000000) + FractionText(u % 1000000, 6) + "ms"
      else
        var seconds := u / 1000000000;
        var minutes := seconds / 60;
        var hours := minutes / 60;
        (if minutes > 0 then (if hours > 0 then NatText(hours) + "h" else "") + NatText(minutes % 60) + "m" else "")
        + NatText(seconds % 60) + FractionText(u % 1000000000, 9) + "s";
    if nanos < 0 then "-" + body else body
  }

  /** The fraction `f / 10^digits` as `.ddd` without trailing zeros, or the
      empty string when it is zero. */
  function FractionText(f: nat, digits: nat): string {
    var padded := PaddedDigits(f, digits);
    var trimmed := TrimTrailingZeros(padded);
    if trimmed == "" then "" else "." + trimmed
  }

  /** The last `digits` decimal digits of `f`, with leading zeros. */
  function PaddedDigits(f: nat, digits: nat): (r: string)
    ensures |r| == digits
  {
    if digits == 0 then "" else PaddedDigits(f / 10, digits - 1) + [DigitChar(f % 10)]
  }

  function TrimTrailingZeros(s: string): (r: string)
    ensures |r| <= |s|
  {
    if s != "" && s[|s| - 1] == '0' then TrimTrailingZeros(s[..|s| - 1]) else s
  }
}
