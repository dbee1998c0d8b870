/** Bounds and times that several parts share. */
module Numbers {
  function Min(a: int, b: int): int { if a < b then a else b }

  function Max(a: int, b: int): int { if a < b then b else a }

  /** The text form of a time keeps whole seconds; times are milliseconds. */
  function WholeSecond(t: int): int { t - t % 1000 }
}
