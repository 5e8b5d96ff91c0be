/**
 * JavaScript truthiness for the few kinds of value the demo tests with `if (x)`.
 * `null` is modelled as None; the empty string and the number 0 are the only
 * other falsy values that can reach these fields (NaN is not modelled).
 */
module JsValues {
  import opened Wrappers

  /** A text field (`name`, `review`, `recommend`) is truthy when set and non-empty. */
  predicate TextTruthy(v: Option<string>) {
    v.Some? && v.value != ""
  }

  /** A number field (`rating`) is truthy when set and non-zero. */
  predicate NumberTruthy(v: Option<int>) {
    v.Some? && v.value != 0
  }

  /** A plain number, such as the one the `inStock` computed property returns. */
  predicate IsTruthy(n: int) {
    n != 0
  }
}
