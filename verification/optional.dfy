/** util/optional/Optional.go: a value that may be absent, or absent because
    an operation reported an error.

    Go's struct holds a value, a presence flag and an error; its constructors
    only ever build three shapes, which are the three constructors here. */
module Optionals {
  import opened Wrappers
  import Values

  datatype Optional<T> = Of(value: T) | Empty | Errored(cause: string)

  /** `OfNilable`: present exactly when the value is not a Go nil. */
  function OfNilable(v: Values.Value): (o: Optional<Values.Value>)
    ensures Present(o) <==> !Values.IsNil(v)
    ensures Present(o) ==> o.value == v
    ensures !o.Errored?
  {
    if Values.IsNil(v) then Empty else Of(v)
  }

  function OfEmpty<T>(): (o: Optional<T>)
    ensures !Present(o) && !o.Errored?
  {
    Empty
  }

  function OfValue<T>(v: T): (o: Optional<T>)
    ensures Present(o) && o.value == v
  {
    Of(v)
  }

  /** `OfCommaOk(v, ok)` for Go's `v, ok := ...` idiom. */
  function OfCommaOk<T>(v: T, ok: bool): (o: Optional<T>)
    ensures Present(o) <==> ok
    ensures ok ==> o.value == v
    ensures !o.Errored?
  {
    if !ok then OfEmpty() else OfValue(v)
  }

  /** `OfCommaErr(v, e)` for Go's `v, err := ...` idiom; `None` stands for a
      nil error and `Some(cause)` for an error with that text. */
  function OfCommaErr<T>(v: T, e: Option<string>): (o: Optional<T>)
    ensures e.Some? ==> !Present(o) && o == Errored(e.value)
    ensures e.None? ==> Present(o) && o.value == v
  {
    if e.Some? then Errored(e.value) else OfValue(v)
  }

  /** `OfEntry(m, key)`: the value stored under `key`, if any. */
  function OfEntry<K, V>(m: map<K, V>, key: K): (o: Optional<V>)
    ensures Present(o) <==> key in m
    ensures key in m ==> o.value == m[key]
    ensures !o.Errored?
  {
    if key !in m then OfEmpty() else OfValue(m[key])
  }

  predicate Present<T>(o: Optional<T>) {
    o.Of?
  }

  /** `OrElse(d)`: the held value when present, otherwise `d`. */
  function OrElse<T>(o: Optional<T>, d: T): (r: T)
    ensures Present(o) ==> r == o.value
    ensures !Present(o) ==> r == d
  {
    if o.Of? then o.value else d
  }

  /** `OrElseOptional(other)`: the receiver when present, otherwise `other`. */
  function OrElseOptional<T>(o: Optional<T>, other: Optional<T>): (r: Optional<T>)
    ensures Present(o) ==> r == o
    ensures !Present(o) ==> r == other
  {
    if o.Of? then o else other
  }

  /** `OrElsePanic(message)`: the held value, or a panic with `message`; a
      recorded error takes precedence and is appended as the cause. */
  function OrElsePanic<T>(o: Optional<T>, message: string): (r: Result<T>)
    ensures Present(o) <==> r.Success?
    ensures Present(o) ==> r.value == o.value
    ensures o.Errored? ==> r == Failure(Panic(message + "\nCaused by: " + o.cause))
    ensures o.Empty? ==> r == Failure(Panic(message))
  {
    match o
    case Errored(cause) => Failure(Panic(message + "\nCaused by: " + cause))
    case Empty => Failure(Panic(message))
    case Of(v) => Success(v)
  }

  /** `Value()`: the held value, or the panic "No value present". */
  function Value<T>(o: Optional<T>): (r: Result<T>)
    ensures Present(o) <==> r.Success?
    ensures Present(o) ==> r.value == o.value
    ensures o.Empty? ==> r == Failure(Panic("No value present"))
  {
    OrElsePanic(o, "No value present")
  }

  /** The cases of util/optional/Optional_test.go: `0` and `""` are present,
      while the nil interface, a nil pointer and a nil map are absent. */
  lemma OfNilableCases()
    ensures Present(OfNilable(Values.Int(0)))
    ensures Present(OfNilable(Values.Str("")))
    ensures !Present(OfNilable(Values.Nil(Values.NilInterface)))
    ensures !Present(OfNilable(Values.Nil(Values.NilPointer)))
    ensures !Present(OfNilable(Values.Nil(Values.NilMap)))
  {
  }

  /** Falling back twice is falling back once to the second fallback. */
  lemma OrElseOfOrElseOptional<T>(o: Optional<T>, other: Optional<T>, d: T)
    ensures OrElse(OrElseOptional(o, other), d) == OrElse(o, OrElse(other, d))
  {
  }

  /** `OrElse` never fails where `OrElsePanic` succeeds, and agrees with it. */
  lemma OrElseAgreesWithOrElsePanic<T>(o: Optional<T>, d: T, message: string)
    ensures OrElsePanic(o, message).Success? ==> OrElse(o, d) == OrElsePanic(o, message).value
    ensures OrElsePanic(o, message).Failure? ==> OrElse(o, d) == d
  {
  }

  /** The constructors from Go's two-result idioms agree with `OfEntry`. */
  lemma OfEntryIsCommaOk<K, V>(m: map<K, V>, key: K, zero: V)
    ensures OfEntry(m, key) == OfCommaOk(if key in m then m[key] else zero, key in m)
  {
  }
}
