/** JavaScript values as the authorization server sees them, and the one
    piece of JavaScript arithmetic it relies on. */
module JsValues {

  /** A JavaScript value of type T that may also be `undefined` or `null`.
      All the values the server stores or reads are objects, so a value is
      truthy exactly when it is `Val`. */
  datatype Js<T> = Undefined | Null | Val(value: T)

  /** `Math.round(ms / 1000)` for an integer number of milliseconds, with
      JavaScript's rounding of halves towards positive infinity. The result
      is the one integer whose interval of width 1000 holds `ms`. */
  function RoundMillisToSeconds(ms: int): (s: int)
    ensures 1000 * s - 500 <= ms < 1000 * s + 500
  {
    (ms + 500) / 1000
  }

  /** The interval characterisation determines the rounding uniquely. */
  lemma RoundMillisToSecondsUnique(ms: int, s: int)
    requires 1000 * s - 500 <= ms < 1000 * s + 500
    ensures RoundMillisToSeconds(ms) == s
  {
  }

  /** Rounding never reverses the order of two durations. */
  lemma RoundMillisToSecondsMonotone(a: int, b: int)
    requires a <= b
    ensures RoundMillisToSeconds(a) <= RoundMillisToSeconds(b)
  {
  }

  /** A rounded duration exceeds `limit` seconds exactly when the duration is
      at least `limit` seconds and a half. */
  lemma RoundedExceeds(ms: int, limit: int)
    ensures RoundMillisToSeconds(ms) > limit <==> ms >= 1000 * limit + 500
  {
  }
}
