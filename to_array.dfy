/** Model of `toArray` (src/array.ts): normalise an optional value-or-array to an array. */
module Normalize {

  /** The argument of `toArray`: `null`/`undefined`, one value, or an array of values. */
  datatype Arrayable<T> = Absent | Single(value: T) | Many(items: seq<T>)

  /**
    * `value ?? []` turns an absent value into the empty array; an array is
    * returned as it is (same elements, same order); any other value is wrapped.
    */
  function ToArray<T>(value: Arrayable<T>): (r: seq<T>)
    ensures value.Absent? ==> r == []
    ensures value.Many? ==> r == value.items
    ensures value.Single? ==> r == [value.value]
  {
    match value
    case Absent => []
    case Single(v) => [v]
    case Many(items) => items
  }

  /** Only an array argument can give more than one element, and only an absent one gives none. */
  lemma ToArrayShape<T>(value: Arrayable<T>)
    ensures |ToArray(value)| > 1 ==> value.Many?
    ensures ToArray(value) == [] <==> value.Absent? || value == Many([])
  {
  }

  /** Normalising an already normalised value changes nothing. */
  lemma ToArrayIdempotent<T>(value: Arrayable<T>)
    ensures ToArray(Many(ToArray(value))) == ToArray(value)
  {
  }
}
